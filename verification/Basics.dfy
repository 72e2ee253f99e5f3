/** Vocabulary shared by the component models. */
module Basics {
  datatype Option<+T> = None | Some(value: T)

  type byte = b: int | 0 <= b < 256

  function AsSeq<T>(o: Option<T>): seq<T> { if o.Some? then [o.value] else [] }

  /** TRANSPORT_MAX_DATA and RESP_OFFSET of the sensor protocol. */
  const MAX_DATA: nat := 128
  const RESP_OFFSET: nat := 0x0100

  /** One more than the largest value of a C `uint32_t`. */
  const UINT32_MODULUS: nat := 0x1_0000_0000

  function Reverse<T>(xs: seq<T>): (ys: seq<T>)
    ensures |ys| == |xs|
    ensures forall i :: 0 <= i < |xs| ==> ys[i] == xs[|xs| - 1 - i]
  {
    seq(|xs|, i requires 0 <= i < |xs| => xs[|xs| - 1 - i])
  }

  function Min(a: int, b: int): int { if a < b then a else b }

  function Max(a: int, b: int): int { if a < b then b else a }

  lemma MulBound(m: int, k: int)
    requires 0 < m
    ensures 1 <= k ==> m <= m * k
    ensures k <= -1 ==> m * k <= -m
  {
    if 1 <= k {
      assert m * k == m + m * (k - 1);
      assert 0 <= m * (k - 1);
    }
    if k <= -1 {
      assert m * k == -m + m * (k + 1);
      assert m * (k + 1) <= 0;
    }
  }

  /** Quotient and remainder are unique. */
  lemma DivModUnique(m: nat, a: int, u: int, b: int, v: int)
    requires 0 <= u < m && 0 <= v < m
    requires m * a + u == m * b + v
    ensures a == b && u == v
  {
    assert m * (a - b) == v - u;
    MulBound(m, a - b);
  }

  lemma ModAddModulus(p: int, m: nat)
    requires 0 < m
    ensures (p + m) % m == p % m
  {
    DivModUnique(m, p / m + 1, p % m, (p + m) / m, (p + m) % m);
  }

  /** Numbers closer than m are distinct modulo m. */
  lemma ModDistinct(p: int, q: int, m: nat)
    requires p < q < p + m
    ensures p % m != q % m
  {
    if p % m == q % m {
      assert m * (q / m - p / m) == q - p;
      MulBound(m, q / m - p / m);
    }
  }

  lemma ModSmall(n: nat, m: nat)
    requires n < m
    ensures n % m == n
  {
    DivModUnique(m, 0, n, n / m, n % m);
  }

  lemma ModSucc(n: nat, m: nat)
    requires 0 < m
    ensures (n % m + 1) % m == (n + 1) % m
  {
    var q, r := n / m, n % m;
    assert n == m * q + r;
    if r + 1 < m {
      ModSmall(r + 1, m);
      DivModUnique(m, q, r + 1, (n + 1) / m, (n + 1) % m);
    } else {
      assert m * (q + 1) == m * q + m;
      ModAddModulus(0, m);
      ModSmall(0, m);
      DivModUnique(m, q + 1, 0, (n + 1) / m, (n + 1) % m);
    }
  }

  lemma MulOrder(m: int, a: int, b: int)
    requires 0 < m
    ensures m * a < m * b <==> a < b
  {
    assert m * b == m * a + m * (b - a);
    MulBound(m, b - a);
  }

  lemma RealProductSign(a: real, b: real)
    ensures 0.0 <= a && 0.0 <= b ==> 0.0 <= a * b
    ensures 0.0 < a && 0.0 < b ==> 0.0 < a * b
  {
  }

  lemma RealMulOrder(s: real, a: real, b: real)
    requires 0.0 < s
    ensures a * s < b * s <==> a < b
  {
    RealProductSign(b - a, s);
    RealProductSign(a - b, s);
    assert b * s - a * s == (b - a) * s;
    assert a * s - b * s == (a - b) * s;
  }
}
