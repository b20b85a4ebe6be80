/** The X25519 Montgomery ladder with its deferred swap, after section 5 of
    RFC 7748, against the plain ladder that branches on every bit. */
module Ladder {
  import opened Bytes
  import opened Montgomery

  const P := 0x7FFFFFFFFFFFFFFFFFFFFFFFFFFFFFFFFFFFFFFFFFFFFFFFFFFFFFFFFFFFFFED

  // ------------------------------------------------------------ plain ladder --

  /** `k >> t`. */
  function Shr(k: nat, t: nat): nat {
    if t == 0 then k else Shr(k, t - 1) / 2
  }

  datatype Pair = Pair(r0: Point, r1: Point)

  function PlainStep(r: Pair, bit: nat, x1: int): Pair {
    if bit == 0 then Pair(Double(r.r0, P), DiffAdd(r.r0, r.r1, x1, P))
    else Pair(DiffAdd(r.r0, r.r1, x1, P), Double(r.r1, P))
  }

  /** The ladder that branches on each bit, after bits `top-1` down to `t`. */
  function PlainLadder(k: nat, x1: int, top: nat, t: nat): Pair
    requires t <= top
    decreases top - t
  {
    if t == top then Pair(Point(1, 0), Point(x1, 1))
    else PlainStep(PlainLadder(k, x1, top, t + 1), Shr(k, t) % 2, x1)
  }

  // ------------------------------------------------------------------ scalar --

  function ClampLow(b: Byte): Byte { b - b % 8 }
  function ClampHigh(b: Byte): Byte { SetBit6(b % 128) }
  function SetBit6(b: Byte): Byte
    requires b < 128
  {
    if b / 64 % 2 == 1 then b else b + 64
  }

  function Clamped(k: Bytes): (c: Bytes)
    requires |k| >= 32
    ensures |c| == |k|
  {
    k[0 := ClampLow(k[0])][31 := ClampHigh(k[31])]
  }

  method Clamp(k: array<Byte>)
    requires k.Length >= 32
    modifies k
    ensures k[..] == Clamped(old(k[..]))
    ensures k.Length == 32 ==>
      FromLittleEndian(k[..]) == Pow2(254) + 8 * (FromLittleEndian(old(k[..])) / 8 % Pow2(251))
  {
    hide FromLittleEndian, Pow2;
    if k.Length == 32 { ClampedIs(k[..]); }
    k[0] := ClampLow(k[0]);
    k[31] := k[31] % 128;
    k[31] := SetBit6(k[31]);
  }

  lemma {:induction false} Pow256IsPow2(n: nat)
    ensures Pow256(n) == Pow2(8 * n)
  {
    if n > 0 {
      Pow256IsPow2(n - 1);
      Pow2Plus(8 * (n - 1), 8);
      assert Pow2(8) == 256;
      assert 8 * (n - 1) + 8 == 8 * n;
    }
  }

  lemma {:induction false} Pow2Plus(m: nat, n: nat)
    ensures Pow2(m + n) == Pow2(m) * Pow2(n)
  {
    if n > 0 {
      Pow2Plus(m, n - 1);
      assert Pow2(m + n) == 2 * Pow2(m + (n - 1));
      assert Pow2(m) * Pow2(n) == 2 * (Pow2(m) * Pow2(n - 1));
    }
  }

  /** The top byte of a little-endian number pins its magnitude. */
  lemma {:induction false} TopByteBounds(b: Bytes)
    requires b != []
    ensures var n := |b| - 1;
      b[n] * Pow256(n) <= FromLittleEndian(b) < (b[n] + 1) * Pow256(n)
  {
    var n := |b| - 1;
    if n > 0 {
      TopByteBounds(b[1..]);
      var top, rest, p := b[n], FromLittleEndian(b[1..]), Pow256(n - 1);
      assert b[1..][n - 1] == top;
      assert Pow256(n) == 256 * p;
      ScaleByByte(top, rest, p, b[0]);
    }
  }

  lemma ScaleByByte(top: nat, rest: nat, p: nat, low: Byte)
    requires top * p <= rest < (top + 1) * p
    ensures top * (256 * p) <= low + 256 * rest < (top + 1) * (256 * p)
  {
    assert top * (256 * p) == 256 * (top * p);
    assert (top + 1) * (256 * p) == 256 * ((top + 1) * p);
  }

  /** The clamped scalar is a multiple of 8 in [2^254, 2^255). */
  lemma ClampedRange(k: Bytes)
    requires |k| == 32
    ensures var n := FromLittleEndian(Clamped(k));
      n % 8 == 0 && Pow2(254) <= n < Pow2(255)
  {
    hide Pow2, Pow256, FromLittleEndian, Clamped;
    var c := Clamped(k);
    TopByteBounds(c);
    ClampedBytes(k);
    Pow256IsPow2(31);
    ClampPowers();
    ScaleBounds(c[31], Pow256(31), FromLittleEndian(c));
  }

  lemma ScaleBounds(top: nat, p: nat, n: nat)
    requires 64 <= top < 128 && top * p <= n < (top + 1) * p
    ensures 64 * p <= n < 128 * p
  {
    assert (top - 64) * p >= 0 && (127 - top) * p >= 0;
    assert top * p == 64 * p + (top - 64) * p;
    assert 128 * p == (top + 1) * p + (127 - top) * p;
  }

  lemma ClampedBytes(k: Bytes)
    requires |k| == 32
    ensures var c := Clamped(k); 64 <= c[31] < 128 && FromLittleEndian(c) % 8 == 0
  {
    var c := Clamped(k);
    assert c[0] % 8 == 0;
    LowByteMod(c);
  }

  lemma LowByteMod(c: Bytes)
    requires c != [] && c[0] % 8 == 0
    ensures FromLittleEndian(c) % 8 == 0
  {
    var rest := FromLittleEndian(c[1..]);
    assert FromLittleEndian(c) == c[0] + 8 * (32 * rest);
  }

  lemma ClampPowers()
    ensures Pow2(254) == 64 * Pow2(8 * 31) && Pow2(255) == 128 * Pow2(8 * 31)
  {
    Pow2Plus(8 * 31, 6);
    Pow2Plus(8 * 31, 7);
    assert Pow2(6) == 64 && Pow2(7) == 128;
  }

  /** Clamping keeps bits 3 to 253 of the scalar, sets bit 254 and clears the rest. */
  lemma ClampedIs(k: Bytes)
    requires |k| == 32
    ensures FromLittleEndian(Clamped(k)) == Pow2(254) + 8 * (FromLittleEndian(k) / 8 % Pow2(251))
  {
    hide Pow2, FromLittleEndian, Pow256, Clamped, ClampLow, ClampHigh;
    var c := Clamped(k);
    var mid := FromLittleEndian(k[1..31]);
    ClampedEnds(k);
    EndsSplit(k);
    EndsSplit(c);
    Pow256IsPow2(30);
    Pow256IsPow2(31);
    SplitPowers();
    KeptBits(k[0], mid, k[31], Pow2(240));
  }

  lemma EndsSplit(b: Bytes)
    requires |b| == 32
    ensures FromLittleEndian(b) == b[0] as int + 256 * FromLittleEndian(b[1..31]) + Pow256(31) * b[31]
    ensures FromLittleEndian(b[1..31]) < Pow256(30)
  {
    hide Pow256;
    assert b[1..] == b[1..31] + [b[31]];
    LastByte(b[1..31], b[31]);
    TimesAgain(b[31]);
  }

  lemma TimesAgain(top: Byte)
    ensures 256 * (Pow256(30) * top) == Pow256(31) * top
  {
    assert Pow256(31) == 256 * Pow256(30);
    Associates(256, Pow256(30), top);
  }

  lemma Associates(a: int, b: int, c: int)
    ensures a * (b * c) == a * b * c
  {
  }

  lemma {:induction false} LastByte(b: Bytes, top: Byte)
    ensures FromLittleEndian(b + [top]) == FromLittleEndian(b) + Pow256(|b|) * top
  {
    if b == [] {
      assert FromLittleEndian([top]) == top + 256 * FromLittleEndian([]);
      assert [] + [top] == [top];
    } else {
      LastByte(b[1..], top);
      assert (b + [top])[1..] == b[1..] + [top];
      Associates(256, Pow256(|b| - 1), top);
    }
  }

  lemma ClampedEnds(k: Bytes)
    requires |k| == 32
    ensures Clamped(k)[0] == k[0] / 8 * 8 && Clamped(k)[31] == 64 + k[31] % 64
    ensures Clamped(k)[1..31] == k[1..31]
  {
  }

  lemma SplitPowers()
    ensures Pow2(248) == 256 * Pow2(240) && Pow2(251) == 2048 * Pow2(240) && Pow2(254) == 16384 * Pow2(240)
  {
    Pow2Plus(240, 8);
    Pow2Plus(240, 11);
    Pow2Plus(240, 14);
    assert Pow2(8) == 256 && Pow2(11) == 2048 && Pow2(14) == 16384;
  }

  /** With `p` standing for 2^240: dropping three bits and reducing mod 2^251 keeps
      the middle of the number and six bits of the top byte. */
  lemma KeptBits(low: Byte, mid: nat, top: Byte, p: nat)
    requires mid < p
    ensures p > 0 && 2048 * p > 0
    ensures var n := low as int + 256 * mid + 256 * p * top;
      (low / 8 * 8) as int + 256 * mid + 256 * p * (64 + top % 64) == 16384 * p + 8 * (n / 8 % (2048 * p))
  {
    var n := low as int + 256 * mid + 256 * p * top;
    var kept := low / 8 + 32 * mid + 32 * (p * (top % 64));
    Pull(p, top);
    assert n == 8 * (low / 8 + 32 * mid + 32 * (p * top)) + low % 8;
    QuotientIs(n, 8, low / 8 + 32 * mid + 32 * (p * top), low % 8);
    assert p * top == p * (top % 64) + 64 * (p * (top / 64)) by { TopSplits(p, top); }
    KeptIsSmall(low, mid, top % 64, p);
    Pull(p, 64 + top % 64);
    assert p * (64 + top % 64) == 64 * p + p * (top % 64);
    Commute(2048 * p, top / 64, p);
    QuotientIs(n / 8, 2048 * p, top / 64, kept);
  }

  lemma Pull(p: nat, t: nat)
    ensures 256 * p * t == 256 * (p * t)
  {
  }

  lemma Commute(d: int, q: int, p: int)
    requires d == 2048 * p
    ensures q * d == 2048 * (p * q)
  {
  }

  lemma TopSplits(p: nat, top: Byte)
    ensures p * top == p * (top % 64) + 64 * (p * (top / 64))
  {
    assert top == top % 64 + 64 * (top / 64);
  }

  lemma KeptIsSmall(low: Byte, mid: nat, six: nat, p: nat)
    requires mid < p && six < 64
    ensures low / 8 + 32 * mid + 32 * (p * six) < 2048 * p
  {
    assert p * six <= p * 63;
  }

  // ---------------------------------------------------------- deferred swap --

  /** `x25519` up to its final inversion, which `pow` performs. */
  method X25519(k: Bytes, u: Bytes, pow: (int, int, int) -> nat) returns (out: Bytes)
    requires |k| >= 32
    ensures var n := FromLittleEndian(Clamped(k));
      && (|k| == 32 ==> n == Pow2(254) + 8 * (FromLittleEndian(k) / 8 % Pow2(251)))
    ensures var n := FromLittleEndian(Clamped(k));
      var x1 := FromLittleEndian(u) % Pow2(255);
      var r := PlainLadder(n, x1, 255, 0).r0;
      && out == LittleEndian32(Mod(r.x * pow(r.z, P - 2, P), P))
      && FromLittleEndian(out) < P
      && (Congruent(r.z * pow(r.z, P - 2, P), 1, P) ==> Congruent(r.z * FromLittleEndian(out), r.x, P))
  {
    hide Double, DiffAdd, Mod, Pow2, LittleEndian32, Clamped;
    var scalar := new Byte[|k|](i requires 0 <= i < |k| => k[i]);
    assert scalar[..] == k;
    Clamp(scalar);
    var n := FromLittleEndian(scalar[..]);
    var x1 := FromLittleEndian(u) % Pow2(255);
    var p2, p3 := Point(1, 0), Point(x1, 1);
    var swap := 0;
    var t := 255;
    while t > 0
      invariant 0 <= t <= 255 && 0 <= swap <= 1
      invariant var r := PlainLadder(n, x1, 255, t);
        if swap == 0 then p2 == r.r0 && p3 == r.r1 else p2 == r.r1 && p3 == r.r0
    {
      t := t - 1;
      ghost var r := PlainLadder(n, x1, 255, t + 1);
      DiffAddSymmetric(r.r0, r.r1, x1, P);
      var kt := Shr(n, t) % 2;
      if swap != kt { p2, p3 := p3, p2; }
      swap := kt;
      p2, p3 := LadderStep(p2, p3, x1);
    }
    if swap == 1 { p2, p3 := p3, p2; }
    out := LittleEndian32(Mod(p2.x * pow(p2.z, P - 2, P), P));
    ResidueFits();
    if Congruent(p2.z * pow(p2.z, P - 2, P), 1, P) { AffineIsQuotient(p2, pow(p2.z, P - 2, P), P); }
  }

  lemma ResidueFits()
    ensures P < Pow256(32)
  {
    assert Pow256(4) == 0x1_0000_0000;
    assert Pow256(8) == 0x1_0000_0000_0000_0000;
    assert Pow256(12) == 0x1_0000_0000_0000_0000_0000_0000;
    assert Pow256(16) == 0x1_0000_0000_0000_0000_0000_0000_0000_0000;
    assert Pow256(20) == 0x1_0000_0000_0000_0000_0000_0000_0000_0000_0000_0000;
    assert Pow256(24) == 0x1_0000_0000_0000_0000_0000_0000_0000_0000_0000_0000_0000_0000;
    assert Pow256(28) == 0x1_0000_0000_0000_0000_0000_0000_0000_0000_0000_0000_0000_0000_0000_0000;
  }

  /** One iteration's field arithmetic, as a straight line of assignments. */
  method LadderStep(p2: Point, p3: Point, x1: int) returns (d: Point, s: Point)
    ensures d == Double(p2, P) && s == DiffAdd(p2, p3, x1, P)
  {
    hide Mod;
    var a := Mod(p2.x + p2.z, P);
    var aa := Mod(a * a, P);
    var b := Mod(p2.x - p2.z, P);
    var bb := Mod(b * b, P);
    var e := Mod(aa - bb, P);
    var c := Mod(p3.x + p3.z, P);
    var dd := Mod(p3.x - p3.z, P);
    var da := Mod(dd * a, P);
    var cb := Mod(c * b, P);
    s := Point(Mod((da + cb) * (da + cb), P), Mod(x1 * ((da - cb) * (da - cb)), P));
    d := Point(Mod(aa * bb, P), Mod(e * (aa + 121665 * e), P));
  }

  function LittleEndianBytes(n: nat, k: nat): (b: Bytes)
    ensures |b| == k
    ensures n < Pow256(k) ==> FromLittleEndian(b) == n
    decreases k
  {
    if k == 0 then [] else [n % 256] + LittleEndianBytes(n / 256, k - 1)
  }

  function LittleEndian32(n: nat): (b: Bytes)
    ensures |b| == 32
    ensures n < Pow256(32) ==> FromLittleEndian(b) == n
  {
    LittleEndianBytes(n, 32)
  }

  // --------------------------------------------- the ladder multiplies by k --

  /** `rep(p, n)` reads "`p` represents n times the base point". It is lawful if
      the two starting points are right and the formulas double and add. */
  ghost predicate Lawful(rep: (Point, nat) -> bool, x1: int) {
    && rep(Point(1, 0), 0) && rep(Point(x1, 1), 1)
    && (forall p, n: nat :: Doubles(rep, p, n))
    && (forall p, q, n: nat :: Adds(rep, p, q, n, x1))
  }

  predicate Doubles(rep: (Point, nat) -> bool, p: Point, n: nat) {
    rep(p, n) ==> rep(Double(p, P), 2 * n)
  }

  predicate Adds(rep: (Point, nat) -> bool, p: Point, q: Point, n: nat, x1: int) {
    rep(p, n) && rep(q, n + 1) ==> rep(DiffAdd(p, q, x1, P), 2 * n + 1)
  }

  lemma {:induction false} ShrBound(k: nat, t: nat)
    ensures Shr(k, t) * Pow2(t) <= k
  {
    if t > 0 {
      ShrBound(k, t - 1);
      HalfBound(Shr(k, t), Shr(k, t - 1), Pow2(t - 1), k);
    }
  }

  lemma HalfBound(half: nat, whole: nat, p: nat, k: nat)
    requires 2 * half <= whole && whole * p <= k
    ensures half * (2 * p) <= k
  {
    assert (whole - 2 * half) * p >= 0;
    assert half * (2 * p) == (2 * half) * p;
    assert (whole - 2 * half) * p == whole * p - (2 * half) * p;
  }

  lemma ShrGone(k: nat, t: nat)
    requires k < Pow2(t)
    ensures Shr(k, t) == 0
  {
    hide Shr;
    ShrBound(k, t);
    assert Shr(k, t) >= 1 ==> Shr(k, t) * Pow2(t) >= Pow2(t);
  }

  /** At every bit the pair holds the leading bits' multiple and the next one. */
  lemma {:induction false} LadderHolds(rep: (Point, nat) -> bool, k: nat, x1: int, top: nat, t: nat)
    requires Lawful(rep, x1) && t <= top && k < Pow2(top)
    ensures var r := PlainLadder(k, x1, top, t); rep(r.r0, Shr(k, t)) && rep(r.r1, Shr(k, t) + 1)
    decreases top - t
  {
    hide Double, DiffAdd;
    if t == top {
      ShrGone(k, t);
    } else {
      LadderHolds(rep, k, x1, top, t + 1);
      var r, n := PlainLadder(k, x1, top, t + 1), Shr(k, t + 1);
      assert Shr(k, t) == 2 * n + Shr(k, t) % 2;
      hide Shr, Pow2;
      assert Doubles(rep, r.r0, n) && Doubles(rep, r.r1, n + 1) && Adds(rep, r.r0, r.r1, n, x1);
    }
  }

  lemma ShiftNone(k: nat)
    ensures Shr(k, 0) == k
  {
  }

  /** Under any lawful double and differential add, the ladder's result for a
      clamped scalar is that multiple of the base point. */
  lemma LadderMultiplies(rep: (Point, nat) -> bool, k: Bytes, x1: int)
    requires |k| == 32 && Lawful(rep, x1)
    ensures var n := Pow2(254) + 8 * (FromLittleEndian(k) / 8 % Pow2(251)); rep(PlainLadder(n, x1, 255, 0).r0, n)
  {
    hide Double, DiffAdd, Pow2, FromLittleEndian, Clamped, PlainLadder, Doubles, Adds;
    ClampedRange(k);
    ClampedIs(k);
    LadderHolds(rep, FromLittleEndian(Clamped(k)), x1, 255, 0);
    ShiftNone(FromLittleEndian(Clamped(k)));
  }
}
