/**
  Bytes, bit strings and powers of two.
 */
module Bits {
  import opened Division

  type Byte = x: nat | x < 256

  /** The low `n` bits of `x`, most significant first. */
  ghost function Low(x: nat, n: nat): (r: seq<nat>)
    ensures |r| == n
  {
    if n == 0 then [] else Low(x / 2, n - 1) + [x % 2]
  }

  function Pow2(k: nat): (r: nat)
    ensures r > 0
  {
    if k == 0 then 1 else 2 * Pow2(k - 1)
  }

  /** Appending `k` bits. */
  lemma {:induction false} LowAppend(x: nat, n: nat, v: nat, k: nat)
    requires v < Pow2(k)
    ensures Low(x * Pow2(k) + v, n + k) == Low(x, n) + Low(v, k)
  {
    if k == 0 {
      assert x * Pow2(0) + v == x;
      assert Low(x, n) + [] == Low(x, n);
    } else {
      var y := x * Pow2(k) + v;
      assert x * Pow2(k) == 2 * (x * Pow2(k - 1));
      assert y / 2 == x * Pow2(k - 1) + v / 2 && y % 2 == v % 2;
      LowAppend(x, n, v / 2, k - 1);
      assert Low(x, n) + (Low(v / 2, k - 1) + [v % 2]) == (Low(x, n) + Low(v / 2, k - 1)) + [v % 2];
    }
  }

  /** Bits above the low ones do not show. */
  lemma {:induction false} LowIgnores(x: nat, c: nat, m: nat, n: nat)
    requires n <= m
    ensures Low(x + c * Pow2(m), n) == Low(x, n)
  {
    if n > 0 {
      assert c * Pow2(m) == 2 * (c * Pow2(m - 1));
      assert (x + c * Pow2(m)) / 2 == x / 2 + c * Pow2(m - 1);
      LowIgnores(x / 2, c, m - 1, n - 1);
    }
  }

  /** `x >> k` */
  function Shr(x: nat, k: nat): nat {
    QuotientAndRemainder(x, Pow2(k));
    x / Pow2(k)
  }

  /** The low bits are the remainder's bits. */
  lemma LowOfRemainder(x: nat, p: nat, m: nat, n: nat)
    requires n <= m && p == Pow2(m)
    ensures Low(x % p, n) == Low(x, n)
  {
    hide Pow2;
    QuotientAndRemainder(x, p);
    LowIgnores(x % p, x / p, m, n);
  }

  /** Splitting off the low `k` bits. */
  lemma LowSplit(x: nat, n: nat, k: nat)
    ensures Low(x, n + k) == Low(Shr(x, k), n) + Low(x, k)
  {
    hide Pow2;
    QuotientAndRemainder(x, Pow2(k));
    LowAppend(Shr(x, k), n, x % Pow2(k), k);
    LowOfRemainder(x, Pow2(k), k, k);
  }

  lemma {:induction false} LowInjective(x: nat, y: nat, n: nat)
    requires x < Pow2(n) && y < Pow2(n) && Low(x, n) == Low(y, n)
    ensures x == y
  {
    if n > 0 {
      assert Low(x, n)[n - 1] == x % 2 && Low(y, n)[n - 1] == y % 2;
      assert Low(x, n)[..n - 1] == Low(x / 2, n - 1) && Low(y, n)[..n - 1] == Low(y / 2, n - 1);
      LowInjective(x / 2, y / 2, n - 1);
    }
  }

  /** Each digit written with `n` bits. */
  ghost function Spread(digits: seq<nat>, n: nat): (r: seq<nat>)
    ensures |r| == n * |digits|
  {
    if digits == [] then [] else Spread(digits[..|digits| - 1], n) + Low(digits[|digits| - 1], n)
  }

  lemma SpreadOne(a: nat, n: nat)
    ensures Spread([a], n) == Low(a, n)
  {
    assert [a][..0] == [];
    assert [] + Low(a, n) == Low(a, n);
  }

  lemma SpreadPush(s: seq<nat>, a: nat, n: nat)
    ensures Spread(s + [a], n) == Spread(s, n) + Low(a, n)
  {
    assert (s + [a])[..|s|] == s;
  }

  lemma {:induction false} SpreadConcat(a: seq<nat>, b: seq<nat>, n: nat)
    ensures Spread(a + b, n) == Spread(a, n) + Spread(b, n)
  {
    if b == [] {
      assert a + b == a;
    } else {
      var last := |b| - 1;
      SpreadConcat(a, b[..last], n);
      assert (a + b)[..|a + b| - 1] == a + b[..last];
      assert Spread(a, n) + (Spread(b[..last], n) + Low(b[last], n)) == (Spread(a, n) + Spread(b[..last], n)) + Low(b[last], n);
    }
  }

  lemma {:induction false} SpreadInjective(a: seq<nat>, b: seq<nat>, n: nat)
    requires |a| == |b| && Spread(a, n) == Spread(b, n)
    requires forall k :: 0 <= k < |a| ==> a[k] < Pow2(n) && b[k] < Pow2(n)
    ensures a == b
  {
    hide Low, Pow2;
    if a != [] {
      var last := |a| - 1;
      var high := n * last;
      assert Spread(a, n)[..high] == Spread(a[..last], n) && Spread(b, n)[..high] == Spread(b[..last], n);
      assert Spread(a, n)[high..] == Low(a[last], n) && Spread(b, n)[high..] == Low(b[last], n);
      SpreadInjective(a[..last], b[..last], n);
      LowInjective(a[last], b[last], n);
      assert a == a[..last] + [a[last]] && b == b[..last] + [b[last]];
    }
  }
}
