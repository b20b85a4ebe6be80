/** Byte strings, results, and the fixed-width integer codecs the tools share. */
module Bytes {

  type Byte = b: int | 0 <= b < 256
  type Bytes = seq<Byte>

  datatype Option<+T> = None | Some(value: T)

  datatype Result<+T, +E> = Ok(value: T) | Err(error: E)

  function Min(a: int, b: int): int {
    if a <= b then a else b
  }

  function Max(a: int, b: int): int {
    if a <= b then b else a
  }

  /** Python's `s[:n]`: a slice that stops at the end of the string. */
  function Take<T>(s: seq<T>, n: nat): seq<T> {
    s[..Min(n, |s|)]
  }

  /** Python's `s[lo:lo+n]` for non-negative bounds. */
  function Slice<T>(s: seq<T>, lo: nat, n: nat): seq<T> {
    s[Min(lo, |s|)..Min(lo + n, |s|)]
  }

  function Zeros(n: nat): (z: Bytes)
    ensures |z| == n && forall i :: 0 <= i < n ==> z[i] == 0
  {
    seq(n, _ => 0)
  }

  function U16Le(n: nat): Bytes
    requires n < 0x10000
  {
    [n % 256, n / 256]
  }

  function U16Be(n: nat): Bytes
    requires n < 0x10000
  {
    [n / 256, n % 256]
  }

  function FromU16Le(lo: Byte, hi: Byte): (n: nat)
    ensures n < 0x10000
  {
    lo + 256 * hi
  }

  function FromU16Be(hi: Byte, lo: Byte): (n: nat)
    ensures n < 0x10000
  {
    256 * hi + lo
  }

  lemma U16LeBack(lo: Byte, hi: Byte)
    ensures U16Le(FromU16Le(lo, hi)) == [lo, hi]
  {
  }

  // ------------------------------------------------------------- characters --

  /** Which letter of the alphabet an ASCII byte is, in either case. */
  function LetterIndex(b: Byte): (n: Option<nat>)
    ensures n.Some? ==> n.value < 26
  {
    if 0x41 <= b <= 0x5A then Some(b - 0x41)
    else if 0x61 <= b <= 0x7A then Some(b - 0x61)
    else None
  }

  /** The text with its letters counted up from `base`, all else as it is. */
  predicate Spells(b: Bytes, text: Bytes, base: nat) {
    && |b| == |text|
    && forall i :: 0 <= i < |text| ==>
      b[i] == if LetterIndex(text[i]).Some? then base + LetterIndex(text[i]).value else text[i]
  }

  /** Equal but for the case of ASCII letters. */
  predicate SameText(a: Bytes, b: Bytes) {
    && |a| == |b|
    && forall i :: 0 <= i < |a| ==> a[i] == b[i] || (LetterIndex(a[i]).Some? && LetterIndex(a[i]) == LetterIndex(b[i]))
  }

  lemma SameSpelling(a: Bytes, b: Bytes, sa: Bytes, sb: Bytes, base: nat)
    requires SameText(a, b) && Spells(sa, a, base) && Spells(sb, b, base)
    ensures sa == sb
  {
  }

  /** `b"".join(parts)`. */
  function Join<T>(parts: seq<seq<T>>): seq<T> {
    if parts == [] then [] else parts[0] + Join(parts[1..])
  }

  lemma JoinOne<T>(x: seq<T>)
    ensures Join([x]) == x
  {
    assert Join([x]) == x + Join([]);
  }

  /** Three parts laid end to end can be cut apart again. */
  lemma SplitsBack<T>(a: seq<T>, b: seq<T>, c: seq<T>)
    ensures var f := a + b + c;
      && |f| == |a| + |b| + |c|
      && f[..|a|] == a && f[|a|..|a| + |b|] == b
      && f[..|a| + |b|] == a + b && f[|a| + |b|..] == c
  {
  }

  // -------------------------------------------------- wide integer codecs --

  function Pow2(n: nat): (p: nat)
    ensures p >= 1
  {
    if n == 0 then 1 else 2 * Pow2(n - 1)
  }

  /** Bit `j` of a number. */
  function Bit(n: nat, j: nat): (b: nat)
    ensures b < 2
  {
    if j == 0 then n % 2 else Bit(n / 2, j - 1)
  }

  function Pow256(k: nat): (p: nat)
    ensures p >= 1
  {
    if k == 0 then 1 else 256 * Pow256(k - 1)
  }

  /** `n.to_bytes(k, "big")`, for `n` below `Pow256(k)`. */
  function BigEndian(n: nat, k: nat): (b: Bytes)
    ensures |b| == k
    decreases k
  {
    if k == 0 then [] else BigEndian(n / 256, k - 1) + [n % 256]
  }

  /** `int.from_bytes(b, "big")`. */
  function FromBigEndian(b: Bytes): (n: nat)
    ensures n < Pow256(|b|)
  {
    if b == [] then 0 else 256 * FromBigEndian(b[..|b| - 1]) + b[|b| - 1]
  }

  lemma {:induction false} FromBigEndianBack(n: nat, k: nat)
    requires n < Pow256(k)
    ensures FromBigEndian(BigEndian(n, k)) == n
    decreases k
  {
    if k > 0 {
      var b := BigEndian(n / 256, k - 1);
      FromBigEndianBack(n / 256, k - 1);
      assert (b + [n % 256])[..k - 1] == b;
    }
  }

  /** Digit `i` from the right counts 256^i. */
  lemma {:induction false} BigEndianDigit(n: nat, k: nat, i: nat)
    requires i < k
    ensures BigEndian(n, k)[k - 1 - i] == n / Pow256(i) % 256
    decreases k
  {
    if i > 0 {
      BigEndianDigit(n / 256, k - 1, i - 1);
      DivideTwice(n, 256, Pow256(i - 1));
    }
  }

  lemma DivideTwice(n: nat, a: nat, b: nat)
    requires a > 0 && b > 0
    ensures a * b > 0 && n / a / b == n / (a * b)
  {
    var m := n / a;
    var q, r, s := m / b, m % b, n % a;
    Remainder(n, a);
    Remainder(m, b);
    Regroup(q, b, r, a, s);
    BelowProduct(r, b, s, a);
    QuotientIs(n, a * b, q, r * a + s);
  }

  lemma Remainder(n: int, d: int)
    requires d > 0
    ensures n == n / d * d + n % d && 0 <= n % d < d
  {
  }

  lemma Regroup(q: int, b: int, r: int, a: int, s: int)
    ensures (q * b + r) * a + s == q * (a * b) + (r * a + s)
  {
    assert (q * b + r) * a == q * b * a + r * a;
    assert q * b * a == q * (a * b);
  }

  lemma BelowProduct(r: int, b: int, s: int, a: int)
    requires 0 <= r < b && 0 <= s < a
    ensures 0 <= r * a + s < a * b
  {
    var d := b - 1 - r;
    assert r * a >= 0 && d * a >= 0;
    assert b == r + 1 + d;
    assert a * b == r * a + a + d * a;
  }

  /** A quotient and a remainder below the divisor are the only ones. */
  lemma QuotientIs(n: int, d: int, q: int, r: int)
    requires d > 0 && n == q * d + r && 0 <= r < d
    ensures n / d == q && n % d == r
  {
    var t := n / d - q;
    Remainder(n, d);
    assert t * d == n / d * d - q * d;
    assert t >= 1 ==> t * d >= d;
    assert t <= -1 ==> t * d + d <= 0;
  }

  lemma {:induction false} BigEndianBack(b: Bytes)
    ensures BigEndian(FromBigEndian(b), |b|) == b
  {
    if b != [] {
      BigEndianBack(b[..|b| - 1]);
      assert b == b[..|b| - 1] + [b[|b| - 1]];
    }
  }

  /** `int.from_bytes(b, "little")`. */
  function FromLittleEndian(b: Bytes): (n: nat)
    ensures n < Pow256(|b|)
  {
    if b == [] then 0 else b[0] + 256 * FromLittleEndian(b[1..])
  }
}
