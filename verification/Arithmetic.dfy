/**
  Bytes, powers of two, and remainders on unbounded integers.
*/
module Arithmetic {

  newtype byte = x: int | 0 <= x < 256

  function Pow2(n: nat): (r: nat)
    ensures r > 0
  {
    if n == 0 then 1 else 2 * Pow2(n - 1)
  }

  // A multiple of m strictly between -m and m is zero.
  lemma {:induction false} SmallMultiple(d: int, m: int)
    requires -m < d * m < m
    ensures d == 0
  {
    assert d >= 1 ==> d * m >= m;
    assert d <= -1 ==> d * m <= -m;
  }

  lemma {:induction false} ModUnique(x: int, q: int, r: int, m: nat)
    requires 0 <= r < m && x == q * m + r
    ensures x % m == r
  {
    var d := x / m - q;
    assert x == (x / m) * m + x % m;
    assert d * m == r - x % m;
    SmallMultiple(d, m);
  }

  lemma {:induction false} ModShift(x: int, k: int, m: nat)
    requires m > 0
    ensures (x + k * m) % m == x % m
  {
    assert x + k * m == (x / m + k) * m + x % m by {
      assert x == (x / m) * m + x % m;
    }
    ModUnique(x + k * m, x / m + k, x % m, m);
  }

  // a and b leave the same remainder if and only if m divides the difference.
  lemma {:induction false} ModDiff(a: int, b: int, m: nat)
    requires m > 0
    ensures a % m == b % m <==> (a - b) % m == 0
  {
    var k := (a - b) / m;
    assert a - b == k * m + (a - b) % m;
    if (a - b) % m == 0 {
      ModShift(b, k, m);
    }
    if a % m == b % m {
      var d := a / m - b / m;
      assert a == (a / m) * m + a % m && b == (b / m) * m + b % m;
      assert d * m == (a / m) * m - (b / m) * m;
      ModUnique(a - b, d, 0, m);
    }
  }

  lemma {:induction false} ModOfMod(x: int, m: nat)
    requires m > 0
    ensures (x % m) % m == x % m
  {
    ModUnique(x % m, 0, x % m, m);
  }

  lemma {:induction false} ModAddCong(a: int, b: int, c: int, m: nat)
    requires m > 0 && a % m == b % m
    ensures (a + c) % m == (b + c) % m
  {
    ModDiff(a, b, m);
    ModDiff(a + c, b + c, m);
  }

  lemma {:induction false} ModMulCong(a: int, b: int, c: int, m: nat)
    requires m > 0 && a % m == b % m
    ensures (a * c) % m == (b * c) % m
  {
    var k := a / m - b / m;
    assert a == b + k * m by {
      assert a == (a / m) * m + a % m && b == (b / m) * m + b % m;
      assert k * m == (a / m) * m - (b / m) * m;
    }
    assert a * c == b * c + (k * c) * m by {
      calc {
        a * c;
        (b + k * m) * c;
        b * c + (k * m) * c;
        b * c + (k * c) * m;
      }
    }
    ModShift(b * c, k * c, m);
  }
}
