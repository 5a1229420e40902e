/** Bytes as the integers 0..255, powers of two, and the facts about
    division and remainder that bit-field access rests on. Every lemma with
    a product in it takes plain variables, so that the solver never has to
    multiply out a power of two. */
module Bytes {

  /** An unsigned 8-bit value, the C `uint8_t`. */
  type Byte = x: int | 0 <= x < 256

  function Pow2(n: nat): (p: nat)
    ensures p >= 1
  {
    if n == 0 then 1 else 2 * Pow2(n - 1)
  }

  lemma {:induction false} Pow2Add(a: nat, b: nat)
    ensures Pow2(a + b) == Pow2(a) * Pow2(b)
  {
    if a > 0 {
      Pow2Add(a - 1, b);
    }
  }

  lemma Distrib(a: int, b: int, d: int)
    ensures a * d - b * d == (a - b) * d
  {
  }

  lemma MulAtLeast(k: int, d: int)
    requires k >= 1 && d > 0
    ensures k * d >= d
  {
  }

  lemma MulMono(a: int, b: int, c: int)
    requires 0 <= a <= b && c >= 0
    ensures a * c <= b * c
  {
  }

  lemma MulAssoc(a: int, b: int, c: int)
    ensures a * (b * c) == (a * c) * b
  {
  }

  lemma MulAddDistrib(a: int, b: int, d: int)
    ensures (a + b) * d == a * d + b * d
  {
  }

  /** Division with remainder is unique: if `x == q * d + r` with `r` in
      range, then `q` and `r` are the quotient and the remainder. */
  lemma DivModUnique(x: int, d: int, q: int, r: int)
    requires d > 0 && 0 <= r < d && x == q * d + r
    ensures x / d == q && x % d == r
  {
    var q', r' := x / d, x % d;
    assert x == q' * d + r';
    Distrib(q, q', d);
    assert (q - q') * d == r' - r;
    if q > q' {
      MulAtLeast(q - q', d);
    } else if q < q' {
      Distrib(q', q, d);
      MulAtLeast(q' - q, d);
    }
  }

  /** A number below the divisor is its own remainder. */
  lemma ModSmall(v: int, d: int)
    requires v >= 0 && d > 0
    ensures v < d ==> v % d == v
  {
    if v < d {
      DivModUnique(v, d, 0, v);
    }
  }

  /** A number written as `L + V * ps + H * (ps * pw)` with `L < ps` and
      `V < pw` has `L`, `V` and `H` as its low, middle and high digits. */
  lemma Digits(L: int, V: int, H: int, ps: int, pw: int, c: int)
    requires ps > 0 && pw > 0 && 0 <= L < ps && 0 <= V < pw && H >= 0
    requires c == L + V * ps + H * (ps * pw)
    ensures c % ps == L && (c / ps) % pw == V && c / (ps * pw) == H
    ensures 0 <= c < (H + 1) * (ps * pw)
  {
    MulAssoc(H, ps, pw);
    MulAddDistrib(V, H * pw, ps);
    DivModUnique(c, ps, V + H * pw, L);
    DivModUnique(V + H * pw, pw, H, V);
    MulMono(V, pw - 1, ps);
    MulAddDistrib(pw, -1, ps);
    DivModUnique(c, ps * pw, H, L + V * ps);
    MulAddDistrib(H, 1, ps * pw);
  }

  /** Dividing by `ps` and then by `pw` is dividing by `ps * pw`. */
  lemma DivDiv(x: int, ps: int, pw: int, L: int, q: int, V: int, H: int)
    requires x >= 0 && ps > 0 && pw > 0
    requires L == x % ps && q == x / ps && V == q % pw && H == q / pw
    ensures x / (ps * pw) == H
    ensures x == L + V * ps + H * (ps * pw)
  {
    assert x == q * ps + L;
    assert q == H * pw + V;
    MulAddDistrib(H * pw, V, ps);
    MulAssoc(H, ps, pw);
    MulMono(V, pw - 1, ps);
    MulAddDistrib(pw, -1, ps);
    DivModUnique(x, ps * pw, H, L + V * ps);
  }

  /** Every non-negative number is the sum of its three digits. */
  lemma Decompose(x: int, ps: int, pw: int)
    requires x >= 0 && ps > 0 && pw > 0
    ensures x == x % ps + ((x / ps) % pw) * ps + (x / (ps * pw)) * (ps * pw)
  {
    DivDiv(x, ps, pw, x % ps, x / ps, (x / ps) % pw, (x / ps) / pw);
  }

  /** The high digit of a byte leaves room for the digits below it. */
  lemma HighBound(b: int, psw: int, rest: int, H: int)
    requires psw > 0 && rest > 0 && psw * rest == 256 && 0 <= b < 256 && H == b / psw
    ensures (H + 1) * psw <= 256
  {
    assert H * psw <= b;
    if H >= rest {
      MulMono(rest, H, psw);
    }
    MulMono(H + 1, rest, psw);
  }

  /** Replacing the middle digit of byte `b` (base `ps`, then `pw`) by `v`
      modulo `pw` gives a byte with the same low and high digits. */
  lemma ReplaceDigit(b: int, v: int, ps: int, pw: int, rest: int, c: int)
    requires ps > 0 && pw > 0 && rest > 0 && (ps * pw) * rest == 256 && 0 <= b < 256 && v >= 0
    requires c == b % ps + (v % pw) * ps + (b / (ps * pw)) * (ps * pw)
    ensures 0 <= c < 256
    ensures c % ps == b % ps && (c / ps) % pw == v % pw && c / (ps * pw) == b / (ps * pw)
  {
    var H := b / (ps * pw);
    Digits(b % ps, v % pw, H, ps, pw, c);
    HighBound(b, ps * pw, rest, H);
  }
}
