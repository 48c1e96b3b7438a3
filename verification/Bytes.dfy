/** Little-endian integers in byte sequences. */
module Bytes {
  type byte = x: int | 0 <= x < 256

  /** 256 to the power of n: the number of values of an n-byte field. */
  function Range(n: nat): (r: nat)
    ensures r > 0
  {
    if n == 0 then 1 else 256 * Range(n - 1)
  }

  /** The low `n` bytes of `v`, least significant first. */
  function Le(v: nat, n: nat): (r: seq<byte>)
    ensures |r| == n
  {
    if n == 0 then [] else [v % 256] + Le(v / 256, n - 1)
  }

  function FromLe(b: seq<byte>): nat {
    if b == [] then 0 else b[0] + 256 * FromLe(b[1..])
  }

  lemma {:induction false} FromLeBound(b: seq<byte>)
    ensures FromLe(b) < Range(|b|)
  {
    if b != [] {
      FromLeBound(b[1..]);
    }
  }

  /** A field keeps a value that fits. */
  lemma {:induction false} LeRoundTrip(v: nat, n: nat)
    requires v < Range(n)
    ensures FromLe(Le(v, n)) == v
  {
    if n > 0 {
      LeRoundTrip(v / 256, n - 1);
      assert Le(v, n)[1..] == Le(v / 256, n - 1);
    }
  }

  /** A field truncates a value that does not fit. */
  lemma {:induction false} LeTruncates(v: nat, n: nat)
    ensures FromLe(Le(v, n)) == v % Range(n)
  {
    if n > 0 {
      LeTruncates(v / 256, n - 1);
      assert Le(v, n)[1..] == Le(v / 256, n - 1);
      ModSplit(v, Range(n - 1));
    }
  }

  lemma {:induction false} ModSplit(v: nat, m: nat)
    requires m > 0
    ensures v % (256 * m) == v % 256 + 256 * ((v / 256) % m)
  {
    var q, r := v / 256, v % 256;
    var a, b := q / m, q % m;
    assert v == 256 * q + r && q == m * a + b;
    assert v == (256 * m) * a + (256 * b + r) by {
      assert 256 * (m * a + b) == (256 * m) * a + 256 * b;
    }
    assert 256 * b + r < 256 * m;
    DivisionUnique(v, 256 * m, a, 256 * b + r);
  }

  lemma {:induction false} DivisionUnique(v: nat, d: nat, q: nat, r: nat)
    requires r < d && v == d * q + r
    ensures v / d == q && v % d == r
  {
    var q', r' := v / d, v % d;
    assert d * (q - q') == r' - r;
    MulBound(d, q - q');
  }

  lemma {:induction false} MulBound(d: nat, k: int)
    ensures k >= 1 ==> d * k >= d
    ensures k <= -1 ==> d * k + d <= 0
  {
  }

  /** Reading a field and writing it back changes nothing. */
  lemma {:induction false} FromLeRoundTrip(b: seq<byte>)
    ensures Le(FromLe(b), |b|) == b
  {
    if b != [] {
      FromLeRoundTrip(b[1..]);
      var v := FromLe(b);
      assert v % 256 == b[0] && v / 256 == FromLe(b[1..]);
    }
  }

  // ---- Signed 32-bit words ----

  predicate IsI32(v: int) { -0x8000_0000 <= v < 0x8000_0000 }

  function I32(v: int): (r: seq<byte>)
    ensures |r| == 4
  {
    Le(v % 0x1_0000_0000, 4)
  }

  function ToI32(b: seq<byte>): int
    requires |b| == 4
  {
    var v := FromLe(b);
    if v < 0x8000_0000 then v else v - 0x1_0000_0000
  }

  lemma {:induction false} I32RoundTrip(v: int)
    requires IsI32(v)
    ensures ToI32(I32(v)) == v
  {
    assert Range(4) == 0x1_0000_0000 by {
      assert Range(1) == 256 && Range(2) == 65536 && Range(3) == 0x100_0000;
    }
    LeRoundTrip(v % 0x1_0000_0000, 4);
  }
}
