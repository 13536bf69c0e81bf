/** The weak (rolling) checksum of librsync's RollSum, as gordiff's simpleRoller
    computes it: two 16-bit accumulators s1 and s2, absorbed a whole buffer at a time,
    with the offset 31 folded in once per buffer. */
module RollSum {
  import opened Bytes

  /** The offset added per absorbed byte, so that all-zero input does not sum to zero. */
  const RollsumOffset: nat := 31

  /** 2^16: the width of s1 and s2. */
  const Modulus16: nat := 0x1_0000

  /** 2^64: the width of the uint64 temporaries Update accumulates in. */
  const Modulus64: nat := 0x1_0000_0000_0000_0000

  /** 2^63: the bound of Go's 64-bit signed int. */
  const Modulus63: nat := 0x8000_0000_0000_0000

  /** Σ b[i]. */
  function Sum(b: seq<byte>): nat
  {
    if b == [] then 0 else b[0] + Sum(b[1..])
  }

  /** Σ (|b| - i) · b[i], i 0-based: the byte at index i is counted once for every
      running sum s1 that is taken after it. */
  function Weighted(b: seq<byte>): nat
  {
    if b == [] then 0 else |b| * b[0] + Weighted(b[1..])
  }

  /** 1 + 2 + ... + n: the number of (byte, later-or-equal position) pairs, so the
      offset 31 enters s2 this many times. */
  function Triangle(n: nat): nat
  {
    if n == 0 then 0 else n + Triangle(n - 1)
  }

  /** The triangular number in the form Update computes it, n(n+1)/2. */
  lemma {:induction false} TriangleFormula(n: nat)
    ensures Triangle(n) == n * (n + 1) / 2
  {
    TriangleDouble(n);
  }

  /** n(n+1) is twice the triangular number, so it is even. */
  lemma {:induction false} TriangleDouble(n: nat)
    ensures n * (n + 1) == 2 * Triangle(n)
  {
    if n > 0 {
      TriangleDouble(n - 1);
      assert n * (n + 1) == (n - 1) * n + 2 * n;
    }
  }

  /** Go's int arithmetic: the 64-bit two's-complement value of x. */
  function WrapInt64(x: int): (w: int)
    ensures -(Modulus63 as int) <= w < Modulus63
    ensures w == x - ((x + Modulus63) / Modulus64) * Modulus64
  {
    (x + Modulus63) % Modulus64 - Modulus63
  }

  /** Go's `a / 2` on int, which truncates toward zero. */
  function HalfTrunc(a: int): (h: int)
    ensures a >= 0 ==> 0 <= a - 2 * h <= 1
    ensures a < 0 ==> -1 <= a - 2 * h <= 0
  {
    if a >= 0 then a / 2 else -((-a) / 2)
  }

  /** The offset term Update adds to tempS2, `uint64((inLen * (inLen + 1) / 2) * rollsumOffset)`:
      the product and the multiplication by 31 are int arithmetic that wraps at 64 bits,
      the division truncates, and the conversion to uint64 reduces modulo 2^64. */
  function OffsetS2(n: nat): (t: nat)
    ensures t < Modulus64
  {
    WrapInt64(HalfTrunc(WrapInt64(n * (n + 1))) * RollsumOffset) % Modulus64
  }

  /** While n(n+1) fits in an int, the term is 31·Triangle(n) in uint64: the wrap of the
      multiplication by 31 is undone by the conversion to uint64. */
  lemma OffsetS2Exact(n: nat)
    ensures n * (n + 1) < Modulus63 ==> OffsetS2(n) == (Triangle(n) * RollsumOffset) % Modulus64
  {
    var p, tri := n * (n + 1), Triangle(n);
    if p < Modulus63 {
      TriangleDouble(n);
      WrapSmall(p);
      assert HalfTrunc(p) == tri;
      WrapMod(tri * RollsumOffset);
    }
  }

  /** A value that fits in an int is its own wrap. */
  lemma WrapSmall(x: int)
    requires -(Modulus63 as int) <= x < Modulus63
    ensures WrapInt64(x) == x
  {
    assert (x + Modulus63) / Modulus64 == 0;
  }

  /** Converting a wrapped int to uint64 gives the value modulo 2^64. */
  lemma WrapMod(x: int)
    ensures WrapInt64(x) % Modulus64 == x % Modulus64
  {
    var q := (x + Modulus63) / Modulus64;
    ModMultiple64(WrapInt64(x), q);
  }

  /** The int overflow in OffsetS2 never reaches s2: the wrapped n(n+1) is still even,
      so it differs from 31·Triangle(n) by a multiple of 2^63, which 2^16 divides. */
  lemma OffsetS2Narrow(n: nat, r: int)
    ensures (r + OffsetS2(n)) % Modulus16 == (r + Triangle(n) * RollsumOffset) % Modulus16
  {
    var p, tri := n * (n + 1), Triangle(n);
    TriangleDouble(n);
    var q := (p + Modulus63) / Modulus64;
    var w := WrapInt64(p);
    assert w == 2 * (tri - q * Modulus63);
    var h := HalfTrunc(w);
    assert h == tri - q * Modulus63;
    var q2 := (h * RollsumOffset + Modulus63) / Modulus64;
    var w2 := WrapInt64(h * RollsumOffset);
    var q3 := w2 / Modulus64;
    assert OffsetS2(n) == w2 - q3 * Modulus64;
    var k := -(RollsumOffset * q + 2 * q2 + 2 * q3) * 0x8000_0000_0000;
    assert OffsetS2(n) == tri * RollsumOffset + k * Modulus16;
    ModMultiple16(r + tri * RollsumOffset, k);
  }

  /** The overflow is real: for a 2^32-byte buffer the uint64 offset term differs from
      31·Triangle(n) modulo 2^64, by 2^63. */
  lemma OffsetS2Overflows()
    ensures OffsetS2(0x1_0000_0000) != (Triangle(0x1_0000_0000) * RollsumOffset) % Modulus64
  {
    var n := 0x1_0000_0000;
    TriangleFormula(n);
    assert Triangle(n) == 0x8000_0000_8000_0000;
    assert WrapInt64(n * (n + 1)) == n;
    assert OffsetS2(n) == 0xF_8000_0000;
    assert (Triangle(n) * RollsumOffset) % Modulus64 == 0x8000_000F_8000_0000;
  }

  /** The s1 that absorbing b leaves behind, starting from s1. */
  function NextS1(s1: uint16, b: seq<byte>): uint16
  {
    (s1 + Sum(b) + RollsumOffset * |b|) % Modulus16
  }

  /** The s2 that absorbing b leaves behind, starting from s1 and s2: every byte adds
      the running s1 (which starts at the old s1) to s2. */
  function NextS2(s1: uint16, s2: uint16, b: seq<byte>): uint16
  {
    (s2 + |b| * s1 + Weighted(b) + RollsumOffset * Triangle(|b|)) % Modulus16
  }

  /** The 4-byte digest: s2 then s1, each big-endian. */
  function DigestBytes(s1: uint16, s2: uint16): (d: seq<byte>)
    ensures |d| == 4
  {
    [s2 / 0x100, s2 % 0x100, s1 / 0x100, s1 % 0x100]
  }

  /** The digest's first two bytes are s2 and its last two are s1, big-endian. */
  lemma DigestBytesValues(s1: uint16, s2: uint16)
    ensures var d := DigestBytes(s1, s2);
      d[0] as int * 0x100 + d[1] == s2 && d[2] as int * 0x100 + d[3] == s1
  {
  }

  /** Four bytes that hold s2 and s1 big-endian are their digest: the digest loses
      nothing. */
  lemma DigestBytesUnique(s1: uint16, s2: uint16, d: seq<byte>)
    requires |d| == 4
    requires d[0] as int * 0x100 + d[1] == s2 && d[2] as int * 0x100 + d[3] == s1
    ensures d == DigestBytes(s1, s2)
  {
  }

  lemma {:induction false} SumAppend(a: seq<byte>, b: seq<byte>)
    ensures Sum(a + b) == Sum(a) + Sum(b)
  {
    if a != [] {
      assert (a + b)[1..] == a[1..] + b;
      SumAppend(a[1..], b);
    } else {
      assert a + b == b;
    }
  }

  /** Absorbing a then b weighs every byte of a once more for each byte of b. */
  lemma {:induction false} WeightedAppend(a: seq<byte>, b: seq<byte>)
    ensures Weighted(a + b) == Weighted(a) + |b| * Sum(a) + Weighted(b)
  {
    if a != [] {
      var x, t, m, n := a[0], a[1..], |a|, |b|;
      assert (a + b)[1..] == t + b;
      assert (a + b)[0] == x;
      WeightedAppend(t, b);
      assert Weighted(a + b) == (m + n) * x + Weighted(t + b);
      assert Weighted(a) == m * x + Weighted(t);
      assert Sum(a) == x + Sum(t);
      Distribute(n, x, Sum(t));
      Distribute(x, m, n);
    } else {
      assert a + b == b;
    }
  }

  lemma Distribute(x: int, y: int, z: int)
    ensures x * (y + z) == x * y + x * z
    ensures (y + z) * x == y * x + z * x
  {
  }

  lemma {:induction false} TriangleAppend(m: nat, n: nat)
    ensures Triangle(m + n) == Triangle(m) + m * n + Triangle(n)
  {
    if n > 0 {
      TriangleAppend(m, n - 1);
      assert m * n == m * (n - 1) + m;
    }
  }

  /** Reducing an intermediate value modulo 2^16 does not change a later result mod 2^16. */
  lemma ModAdd16(x: int, y: int, z: int)
    ensures (x % Modulus16 + y * (z % Modulus16)) % Modulus16 == (x + y * z) % Modulus16
  {
    var q := z / Modulus16;
    var p := x / Modulus16;
    assert z == q * Modulus16 + z % Modulus16;
    assert x == p * Modulus16 + x % Modulus16;
    assert x + y * z == x % Modulus16 + y * (z % Modulus16) + (p + y * q) * Modulus16 by {
      assert y * z == y * (z % Modulus16) + y * q * Modulus16;
    }
    ModMultiple16(x % Modulus16 + y * (z % Modulus16), p + y * q);
  }

  lemma ModMultiple16(r: int, k: int)
    ensures (r + k * Modulus16) % Modulus16 == r % Modulus16
  {
  }

  lemma ModMultiple64(r: int, k: int)
    ensures (r + k * Modulus64) % Modulus64 == r % Modulus64
  {
  }

  /** 2^16 divides 2^64, so uint64 wrap-around of Update's temporaries is invisible
      once they are truncated to 16 bits. */
  lemma ModNarrow(x: int)
    ensures (x % Modulus64) % Modulus16 == x % Modulus16
  {
    var q := x / Modulus64;
    assert x == q * Modulus64 + x % Modulus64;
    assert Modulus64 == 0x1_0000_0000_0000 * Modulus16;
    assert x == x % Modulus64 + (q * 0x1_0000_0000_0000) * Modulus16;
    ModMultiple16(x % Modulus64, q * 0x1_0000_0000_0000);
  }

  /** Absorbing b from scratch gives the closed forms of the rdiff weak sum. */
  lemma FromScratch(b: seq<byte>)
    ensures NextS1(0, b) == (Sum(b) + RollsumOffset * |b|) % Modulus16
    ensures NextS2(0, 0, b) == (Weighted(b) + RollsumOffset * Triangle(|b|)) % Modulus16
  {
  }

  /** Absorbing nothing changes neither accumulator. */
  lemma UpdateEmpty(s1: uint16, s2: uint16)
    ensures NextS1(s1, []) == s1 && NextS2(s1, s2, []) == s2
  {
  }

  /** Update(a) followed by Update(b) leaves the same s1 and s2 as Update(a + b):
      the offset terms 31·|b| and 31·|b|(|b|+1)/2 added once per call add up to those
      of the concatenation, and 16-bit truncation in between does no harm. */
  lemma UpdateComposes(s1: uint16, s2: uint16, a: seq<byte>, b: seq<byte>)
    ensures NextS1(NextS1(s1, a), b) == NextS1(s1, a + b)
    ensures NextS2(NextS1(s1, a), NextS2(s1, s2, a), b) == NextS2(s1, s2, a + b)
  {
    S1Composes(s1, a, b);
    S2Composes(s1, s2, a, b);
  }

  lemma S1Composes(s1: uint16, a: seq<byte>, b: seq<byte>)
    ensures NextS1(NextS1(s1, a), b) == NextS1(s1, a + b)
  {
    SumAppend(a, b);
    assert |a + b| == |a| + |b|;
    S1Arith(s1, |a|, |b|, Sum(a), Sum(b));
  }

  /** The arithmetic of S1Composes, on the sums and lengths alone. */
  lemma S1Arith(s1: int, m: nat, n: nat, sa: int, sb: int)
    ensures ((s1 + sa + RollsumOffset * m) % Modulus16 + sb + RollsumOffset * n) % Modulus16
         == (s1 + (sa + sb) + RollsumOffset * (m + n)) % Modulus16
  {
    var x1 := s1 + sa + RollsumOffset * m;
    var y := sb + RollsumOffset * n;
    ModLeft16(x1, y);
    Distribute(RollsumOffset, m, n);
  }

  lemma S2Composes(s1: uint16, s2: uint16, a: seq<byte>, b: seq<byte>)
    ensures NextS2(NextS1(s1, a), NextS2(s1, s2, a), b) == NextS2(s1, s2, a + b)
  {
    var m, n, sa, wa, wb, tm, tn := |a|, |b|, Sum(a), Weighted(a), Weighted(b), Triangle(|a|), Triangle(|b|);
    NextS2Of(NextS1(s1, a), NextS2(s1, s2, a), b, n, wb, tn);
    NextS2Of(s1, s2, a, m, wa, tm);
    WeightedAppend(a, b);
    TriangleAppend(m, n);
    NextS2Of(s1, s2, a + b, m + n, wa + n * sa + wb, tm + m * n + tn);
    S2Arith(s1, s2, m, n, sa, wa, wb, tm, tn);
  }

  /** NextS2 in terms of the length, weighted sum and triangular number of b. */
  lemma NextS2Of(s1: uint16, s2: uint16, b: seq<byte>, len: nat, w: int, t: int)
    requires |b| == len && Weighted(b) == w && Triangle(len) == t
    ensures NextS2(s1, s2, b) == (s2 + len * s1 + w + RollsumOffset * t) % Modulus16
  {
  }

  /** The arithmetic of S2Composes, on the sums, lengths and triangular numbers
      alone. */
  lemma S2Arith(s1: int, s2: int, m: nat, n: nat, sa: int, wa: int, wb: int, tm: int, tn: int)
    ensures ((s2 + m * s1 + wa + RollsumOffset * tm) % Modulus16
             + n * ((s1 + sa + RollsumOffset * m) % Modulus16) + wb + RollsumOffset * tn) % Modulus16
         == (s2 + (m + n) * s1 + (wa + n * sa + wb) + RollsumOffset * (tm + m * n + tn)) % Modulus16
  {
    var x1 := s1 + sa + RollsumOffset * m;
    var x2 := s2 + m * s1 + wa + RollsumOffset * tm;
    var rest := wb + RollsumOffset * tn;
    calc {
      (x2 % Modulus16 + n * (x1 % Modulus16) + wb + RollsumOffset * tn) % Modulus16;
      ((x2 % Modulus16 + rest) + n * (x1 % Modulus16)) % Modulus16;
      { ModScale16(x2 % Modulus16 + rest, n, x1); }
      (x2 % Modulus16 + (rest + n * x1)) % Modulus16;
      { ModLeft16(x2, rest + n * x1); }
      (x2 + n * x1 + rest) % Modulus16;
      { S2Sum(s1, s2, m, n, sa, wa, wb, tm, tn); }
      (s2 + (m + n) * s1 + (wa + n * sa + wb) + RollsumOffset * (tm + m * n + tn)) % Modulus16;
    }
  }

  lemma ModLeft16(a: int, b: int)
    ensures (a % Modulus16 + b) % Modulus16 == (a + b) % Modulus16
  {
    ModAdd16(b, 1, a);
  }

  lemma ModScale16(b: int, n: int, x: int)
    ensures (b + n * (x % Modulus16)) % Modulus16 == (b + n * x) % Modulus16
  {
    ModAdd16(b, n, x);
    ModAdd16(b, 0, 0);
    ModLeft16(b, n * (x % Modulus16));
    ModLeft16(b, n * x);
  }

  /** The arithmetic of UpdateComposes's s2 half, without the sequences
      (tm and tn stand for the triangular numbers of m and n). */
  lemma S2Sum(s1: int, s2: int, m: nat, n: nat, sa: int, wa: int, wb: int, tm: int, tn: int)
    ensures (s2 + m * s1 + wa + RollsumOffset * tm)
            + n * (s1 + sa + RollsumOffset * m)
            + (wb + RollsumOffset * tn)
         == s2 + (m + n) * s1 + (wa + n * sa + wb)
            + RollsumOffset * (tm + m * n + tn)
  {
    Distribute(n, s1, sa + RollsumOffset * m);
    Distribute(n, sa, RollsumOffset * m);
    Distribute(s1, m, n);
    Distribute(RollsumOffset, tm, m * n + tn);
    Distribute(RollsumOffset, m * n, tn);
    assert n * (RollsumOffset * m) == RollsumOffset * (m * n);
  }

  /** gordiff's simpleRoller: a byte count and the two 16-bit accumulators. */
  class SimpleRoller {
    var count: int
    var s1: uint16
    var s2: uint16

    /** NewSimpleRoller: a roller with every field zero. */
    constructor ()
      ensures count == 0 && s1 == 0 && s2 == 0
    {
      count, s1, s2 := 0, 0, 0;
    }

    /** Resets the count and both accumulators. */
    method Init()
      modifies this
      ensures count == 0 && s1 == 0 && s2 == 0
    {
      count := 0;
      s1 := 0;
      s2 := 0;
    }

    /** Absorbs a whole buffer: per byte s1 grows by the byte and s2 by the new s1,
        in uint64 temporaries; then the offset terms are added once and both sums are
        truncated to 16 bits. The count grows by |inBuffer| and plays no part in s1, s2. */
    method Update(inBuffer: seq<byte>)
      modifies this
      ensures count == old(count) + |inBuffer|
      ensures s1 == NextS1(old(s1), inBuffer)
      ensures s2 == NextS2(old(s1), old(s2), inBuffer)
    {
      var inLen := |inBuffer|;
      var tempS1, tempS2 := Accumulate(s1, s2, inBuffer);
      count := count + inLen;
      tempS1 := (tempS1 + inLen * RollsumOffset) % Modulus64;
      tempS2 := (tempS2 + OffsetS2(inLen)) % Modulus64;
      UpdateFinish(old(s1), old(s2), inBuffer);
      s1 := tempS1 % Modulus16;
      s2 := tempS2 % Modulus16;
    }

    /** The 4-byte weak sum, s2 big-endian then s1 big-endian; the roller is not changed. */
    method Digest() returns (d: seq<byte>)
      ensures |d| == 4
      ensures d[0] as int * 0x100 + d[1] == s2
      ensures d[2] as int * 0x100 + d[3] == s1
      ensures d == DigestBytes(s1, s2)
    {
      DigestBytesValues(s1, s2);
      var result := new byte[4];
      result[0] := (s2 / 0x100) % 0x100;
      result[1] := s2 % 0x100;
      result[2] := (s1 / 0x100) % 0x100;
      result[3] := s1 % 0x100;
      d := result[..];
    }
  }

  /** The byte loop of Update: per byte, s1 grows by the byte and s2 by the new s1,
      in uint64 arithmetic. */
  method Accumulate(s1: uint16, s2: uint16, inBuffer: seq<byte>) returns (tempS1: int, tempS2: int)
    ensures tempS1 == Running1(s1, inBuffer)
    ensures tempS2 == Running2(s1, s2, inBuffer)
  {
    tempS1, tempS2 := s1, s2;
    for i := 0 to |inBuffer|
      invariant tempS1 == Running1(s1, inBuffer[..i])
      invariant tempS2 == Running2(s1, s2, inBuffer[..i])
    {
      UpdateStep(s1, s2, inBuffer, i);
      tempS1 := (tempS1 + inBuffer[i]) % Modulus64;
      tempS2 := (tempS2 + tempS1) % Modulus64;
    }
    assert inBuffer[..|inBuffer|] == inBuffer;
  }

  /** Update's uint64 temporary tempS1 once the bytes p have gone through its loop. */
  ghost function Running1(s1: uint16, p: seq<byte>): int
  {
    (s1 + Sum(p)) % Modulus64
  }

  /** Update's uint64 temporary tempS2 once the bytes p have gone through its loop. */
  ghost function Running2(s1: uint16, s2: uint16, p: seq<byte>): int
  {
    (s2 + |p| * s1 + Weighted(p)) % Modulus64
  }

  /** One byte of Update's loop: the uint64 temporaries keep tracking the running sums. */
  lemma UpdateStep(s1: uint16, s2: uint16, b: seq<byte>, i: nat)
    requires i < |b|
    ensures (Running1(s1, b[..i]) + b[i]) % Modulus64 == Running1(s1, b[..i + 1])
    ensures (Running2(s1, s2, b[..i]) + Running1(s1, b[..i + 1])) % Modulus64 == Running2(s1, s2, b[..i + 1])
  {
    assert b[..i + 1] == b[..i] + [b[i]];
    Running1Step(s1, b[..i], b[i]);
    Running2Step(s1, s2, b[..i], b[i]);
  }

  lemma Running1Step(s1: uint16, p: seq<byte>, x: byte)
    ensures (Running1(s1, p) + x) % Modulus64 == Running1(s1, p + [x])
  {
    assert Sum(p + [x]) == Sum(p) + x by {
      SumAppend(p, [x]);
      assert Sum([x]) == x;
    }
    ModAdd64(s1 + Sum(p), x);
  }

  lemma Running2Step(s1: uint16, s2: uint16, p: seq<byte>, x: byte)
    ensures (Running2(s1, s2, p) + Running1(s1, p + [x])) % Modulus64 == Running2(s1, s2, p + [x])
  {
    var q := p + [x];
    assert Weighted(q) == Weighted(p) + Sum(q) by {
      WeightedAppend(p, [x]);
      SumAppend(p, [x]);
      assert Sum([x]) == x && Weighted([x]) == x;
    }
    assert s2 + |p| * s1 + Weighted(p) + (s1 + Sum(q)) == s2 + |q| * s1 + Weighted(q) by {
      Distribute(s1, |p|, 1);
    }
    ModSum64(s2 + |p| * s1 + Weighted(p), s1 + Sum(q));
  }

  /** The end of Update: the offset terms, then truncation to 16 bits. */
  lemma UpdateFinish(s1: uint16, s2: uint16, b: seq<byte>)
    ensures ((Running1(s1, b) + |b| * RollsumOffset) % Modulus64) % Modulus16 == NextS1(s1, b)
    ensures ((Running2(s1, s2, b) + OffsetS2(|b|)) % Modulus64) % Modulus16 == NextS2(s1, s2, b)
  {
    ModAdd64(s1 + Sum(b), |b| * RollsumOffset);
    ModNarrow(s1 + Sum(b) + |b| * RollsumOffset);
    var x, t := s2 + |b| * s1 + Weighted(b), OffsetS2(|b|);
    assert Running2(s1, s2, b) == x % Modulus64;
    assert ((x % Modulus64 + t) % Modulus64) % Modulus16 == (x + t) % Modulus16 by {
      ModAdd64(x, t);
      ModNarrow(x + t);
    }
    OffsetS2Narrow(|b|, x);
  }

  lemma ModAdd64(x: int, y: int)
    ensures (x % Modulus64 + y) % Modulus64 == (x + y) % Modulus64
  {
    var q := x / Modulus64;
    assert x == q * Modulus64 + x % Modulus64;
    ModMultiple64(x % Modulus64 + y, q);
  }

  lemma ModSum64(x: int, y: int)
    ensures (x % Modulus64 + y % Modulus64) % Modulus64 == (x + y) % Modulus64
  {
    ModAdd64(x, y % Modulus64);
    ModAdd64(y, x);
  }
}
