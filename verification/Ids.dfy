/** Positions on the identifier circle: 160-bit numbers, clockwise gaps, the two circular
    interval tests, and the 20-byte representation the nodes compare and exchange. */
module Ids {

  const RING_SIZE: int := 0x1_0000000000_0000000000_0000000000_0000000000

  type Id = n: int | 0 <= n < RING_SIZE

  type Byte = n: int | 0 <= n < 256

  /** Clockwise travel from a to b; a full turn when the two coincide. Seen from a, every
      position has its own gap, so gaps from a order the circle starting just after a. */
  function Gap(a: Id, b: Id): (g: int)
    ensures 1 <= g <= RING_SIZE
    ensures g == RING_SIZE <==> a == b
  {
    if a < b then b - a else b - a + RING_SIZE
  }

  /** Clockwise travel from a to b; zero when the two coincide. */
  function Dist(a: Id, b: Id): (d: int)
    ensures 0 <= d < RING_SIZE
    ensures d == if a == b then 0 else Gap(a, b)
  {
    if a <= b then b - a else b - a + RING_SIZE
  }

  predicate BetweenExclusive(id: Id, lo: Id, hi: Id)
    ensures BetweenExclusive(id, lo, hi) <==> Gap(lo, id) < Gap(lo, hi)
  {
    if lo == hi then id != lo
    else if lo < hi then lo < id && id < hi
    else lo < id || id < hi
  }

  predicate BetweenRightInclusive(id: Id, lo: Id, hi: Id)
    ensures BetweenRightInclusive(id, lo, hi) <==> Gap(lo, id) <= Gap(lo, hi)
  {
    id == hi || BetweenExclusive(id, lo, hi)
  }

  // ---------------------------------------------------------------- powers of two

  function Pow2(k: nat): (p: nat)
    ensures p >= 1
  {
    if k == 0 then 1 else 2 * Pow2(k - 1)
  }

  lemma {:induction false} Pow2Mono(j: nat, k: nat)
    requires j <= k
    ensures Pow2(j) <= Pow2(k)
    decreases k - j
  {
    if j < k {
      Pow2Mono(j + 1, k);
    }
  }

  // ---------------------------------------------------------------- the 20-byte form

  function Pow256(k: nat): (p: nat)
    ensures p >= 1
  {
    if k == 0 then 1 else 256 * Pow256(k - 1)
  }

  /** The number a big-endian byte string denotes. */
  function Value(s: seq<Byte>): (v: nat)
  {
    if s == [] then 0 else s[0] * Pow256(|s| - 1) + Value(s[1..])
  }

  lemma {:induction false} ValueBound(s: seq<Byte>)
    ensures Value(s) < Pow256(|s|)
  {
    if s != [] {
      ValueBound(s[1..]);
      assert s[0] * Pow256(|s| - 1) <= 255 * Pow256(|s| - 1) by { MulMono(s[0], 255, Pow256(|s| - 1)); }
    }
  }

  lemma MulMono(x: int, y: int, p: nat)
    requires x <= y
    ensures x * p <= y * p
  {
  }

  lemma {:induction false} ValueSnoc(s: seq<Byte>, b: Byte)
    ensures Value(s + [b]) == Value(s) * 256 + b
  {
    if s != [] {
      assert (s + [b])[1..] == s[1..] + [b];
      ValueSnoc(s[1..], b);
      assert s[0] * (256 * Pow256(|s| - 1)) == 256 * (s[0] * Pow256(|s| - 1));
    }
  }

  lemma Pow256Of20()
    ensures Pow256(20) == RING_SIZE
  {
    assert Pow256(5) == 0x1_0000000000;
    assert Pow256(10) == 0x1_0000000000 * Pow256(5);
    assert Pow256(15) == 0x1_0000000000 * Pow256(10);
    assert Pow256(20) == 0x1_0000000000 * Pow256(15);
  }

  lemma {:induction false} Pow2OfBytes(k: nat)
    ensures Pow2(8 * k) == Pow256(k)
  {
    if k > 0 {
      Pow2OfBytes(k - 1);
      var m := 8 * k - 8;
      assert Pow2(m + 2) == 4 * Pow2(m);
      assert Pow2(m + 4) == 4 * Pow2(m + 2);
      assert Pow2(m + 6) == 4 * Pow2(m + 4);
      assert Pow2(m + 8) == 4 * Pow2(m + 6);
    }
  }

  lemma Pow2Of160()
    ensures Pow2(160) == RING_SIZE
  {
    Pow2OfBytes(20);
    Pow256Of20();
  }

  /** Strings of one length are told apart by the byte at which they first differ. */
  lemma DecidedAt(a: seq<Byte>, b: seq<Byte>, i: nat)
    requires i < |a| == |b|
    requires a[i] < b[i]
    ensures Value(a[i..]) < Value(b[i..])
  {
    var p := Pow256(|a| - i - 1);
    assert a[i..][1..] == a[i + 1..] && b[i..][1..] == b[i + 1..];
    ValueBound(a[i + 1..]);
    MulMono(a[i] + 1, b[i], p);
    assert (a[i] + 1) * p == a[i] * p + p;
  }

  /** Byte-wise comparison of identifiers agrees with the order of the numbers they denote. */
  method Less(a: seq<Byte>, b: seq<Byte>) returns (r: bool)
    requires |a| == |b| == 20
    ensures r <==> Value(a) < Value(b)
  {
    assert a[0..] == a && b[0..] == b;
    for i := 0 to 20
      invariant Value(a) - Value(b) == Value(a[i..]) - Value(b[i..])
    {
      assert a[i..][1..] == a[i + 1..] && b[i..][1..] == b[i + 1..];
      if a[i] != b[i] {
        if a[i] < b[i] { DecidedAt(a, b, i); } else { DecidedAt(b, a, i); }
        return a[i] < b[i];
      }
    }
    return false;
  }

  /** Identifiers are equal exactly when they denote the same number. */
  lemma {:induction false} ValueInjective(a: seq<Byte>, b: seq<Byte>)
    requires |a| == |b|
    requires Value(a) == Value(b)
    ensures a == b
  {
    if a != [] {
      assert a[0..] == a && b[0..] == b;
      if a[0] < b[0] { DecidedAt(a, b, 0); }
      if b[0] < a[0] { DecidedAt(b, a, 0); }
      ValueInjective(a[1..], b[1..]);
    }
  }

  /** Shortest big-endian form of a number; zero gives the empty string. */
  function MinimalBytes(n: nat): (s: seq<Byte>)
    ensures Value(s) == n
    ensures forall k: nat :: n < Pow256(k) ==> |s| <= k
  {
    if n == 0 then []
    else
      var s := MinimalBytes(n / 256);
      ValueSnoc(s, n % 256);
      assert forall k: nat :: n < Pow256(k) ==> k > 0 && n / 256 < Pow256(k - 1);
      s + [n % 256]
  }

  lemma {:induction false} LeadingZeros(z: nat, s: seq<Byte>)
    ensures Value(seq(z, i => 0) + s) == Value(s)
  {
    if z > 0 {
      assert (seq(z, i => 0) + s)[1..] == seq(z - 1, i => 0) + s;
      LeadingZeros(z - 1, s);
    } else {
      assert seq(z, i => 0) + s == s;
    }
  }

  lemma FingerFits(i: nat)
    requires i < 160
    ensures 1 <= Pow2(i) < RING_SIZE
  {
    Pow2Of160();
    Pow2Mono(i, 159);
    assert Pow2(160) == 2 * Pow2(159);
  }

  /** The position 2^i clockwise of n. */
  function FingerStart(n: Id, i: nat): (r: Id)
    requires i < 160
  {
    FingerFits(i);
    if n + Pow2(i) < RING_SIZE then n + Pow2(i) else n + Pow2(i) - RING_SIZE
  }

  /** Finger starts are sums modulo 2^160. */
  lemma FingerStartIsModulo(n: Id, i: nat)
    requires i < 160
    ensures FingerStart(n, i) == (n + Pow2(i)) % RING_SIZE
  {
    FingerFits(i);
    var p := Pow2(i);
    if n + p >= RING_SIZE { assert (n + p - RING_SIZE + RING_SIZE) % RING_SIZE == n + p - RING_SIZE; }
  }

  /** The start of finger i computed through the byte form is n + 2^i around the circle:
      the number always fits the 20 bytes, so the copy into the result is never skipped. */
  method FingerStartBytes(id: seq<Byte>, i: nat) returns (out: seq<Byte>)
    requires |id| == 20
    requires i < 160
    ensures |out| == 20
    ensures Value(id) < RING_SIZE
    ensures Value(out) == FingerStart(Value(id), i)
  {
    Pow256Of20();
    ValueBound(id);
    var result := (Value(id) + Pow2(i)) % RING_SIZE;
    FingerStartIsModulo(Value(id), i);
    out := seq(20, j => 0);
    var b := MinimalBytes(result);
    if |b| <= 20 {
      ghost var zeros := seq(20 - |b|, j => 0);
      out := out[..20 - |b|] + b;
      assert out == zeros + b;
      LeadingZeros(20 - |b|, b);
    }
  }

  /** Finger i starts exactly 2^i clockwise of its node. */
  lemma FingerStartGap(n: Id, i: nat)
    requires i < 160
    ensures Gap(n, FingerStart(n, i)) == Pow2(i)
  {
    FingerFits(i);
  }
}
