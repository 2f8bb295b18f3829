/**
 * Java's bitwise `&` and `|` on non-negative values, taken over their low k bits and written
 * bit by bit with arithmetic, with the mask facts the machine's sign extension and byte
 * extraction rely on.
 */
module JavaBits {
  import opened JavaText

  /** The low k bits of x & y. */
  function BitAnd(x: nat, y: nat, k: nat): nat
  {
    if k == 0 then 0
    else 2 * BitAnd(x / 2, y / 2, k - 1) + (if x % 2 == 1 && y % 2 == 1 then 1 else 0)
  }

  /** The low k bits of x | y. */
  function BitOr(x: nat, y: nat, k: nat): nat
  {
    if k == 0 then 0
    else 2 * BitOr(x / 2, y / 2, k - 1) + (if x % 2 == 1 || y % 2 == 1 then 1 else 0)
  }

  lemma TwoTo4() ensures Pow(2, 4) == 16 { PowFacts(); }
  lemma TwoTo5() ensures Pow(2, 5) == 32 { PowFacts(); }
  lemma TwoTo8() ensures Pow(2, 8) == 256 { PowFacts(); }
  lemma TwoTo16() ensures Pow(2, 16) == 0x10000 { PowFacts(); }

  lemma TwoTo31And32()
    ensures Pow(2, 31) == 0x8000_0000 && Pow(2, 32) == 0x1_0000_0000
  {
    TwoTo16();
    assert Pow(2, 20) == 0x10_0000;
    assert Pow(2, 24) == 0x100_0000;
    assert Pow(2, 28) == 0x1000_0000;
  }

  /** Splitting off the lowest bit: x mod 2p from (x / 2) mod p. */
  lemma ModDouble(x: nat, p: nat)
    requires p > 0
    ensures x % (2 * p) == 2 * ((x / 2) % p) + x % 2
    ensures (x / 2) / p == x / (2 * p)
  {
    var q := x / 2;
    var b := x % 2;
    var t := q / p;
    var s := q % p;
    assert x == 2 * q + b;
    assert q == p * t + s;
    assert x == (2 * p) * t + (2 * s + b) by {
      assert 2 * (p * t) == (2 * p) * t;
    }
    assert 0 <= 2 * s + b < 2 * p;
    DivModUnique(x, 2 * p, t, 2 * s + b);
  }

  lemma OddHalf(n: nat)
    ensures (2 * n + 1) / 2 == n && (2 * n + 1) % 2 == 1
  {
  }

  /** The result has at most k bits. */
  lemma {:induction false} BitAndBound(x: nat, y: nat, k: nat)
    ensures BitAnd(x, y, k) < Pow(2, k)
  {
    if k > 0 {
      BitAndBound(x / 2, y / 2, k - 1);
    }
  }

  lemma {:induction false} BitAndCommutes(x: nat, y: nat, k: nat)
    ensures BitAnd(x, y, k) == BitAnd(y, x, k)
  {
    if k > 0 {
      BitAndCommutes(x / 2, y / 2, k - 1);
    }
  }

  lemma {:induction false} BitAndZero(x: nat, k: nat)
    ensures BitAnd(0, x, k) == 0
  {
    if k > 0 {
      BitAndZero(x / 2, k - 1);
    }
  }

  lemma {:induction false} BitAndSelf(x: nat, k: nat)
    ensures BitAnd(x, x, k) == x % Pow(2, k)
  {
    if k > 0 {
      BitAndSelf(x / 2, k - 1);
      ModDouble(x, Pow(2, k - 1));
    }
  }

  /** Masking with m low ones keeps x mod 2^m. */
  lemma {:induction false} BitAndLowMask(x: nat, m: nat, k: nat)
    requires m <= k
    ensures BitAnd(Pow(2, m) - 1, x, k) == x % Pow(2, m)
  {
    if m == 0 {
      BitAndZero(x, k);
    } else {
      var p := Pow(2, m - 1);
      var mask := Pow(2, m) - 1;
      assert mask == 2 * (p - 1) + 1;
      var low := BitAnd(p - 1, x / 2, k - 1);
      assert low == (x / 2) % p by { BitAndLowMask(x / 2, m - 1, k - 1); }
      assert BitAnd(mask, x, k) == 2 * low + x % 2 by { OddHalf(p - 1); }
      assert 2 * low + x % 2 == x % (2 * p) by { ModDouble(x, p); }
    }
  }

  /** Masking with the single bit 2^m tests bit m. */
  lemma {:induction false} BitAndSingleBit(x: nat, m: nat, k: nat)
    requires m < k
    ensures BitAnd(Pow(2, m), x, k) == Pow(2, m) * ((x / Pow(2, m)) % 2)
  {
    if m == 0 {
      BitAndZero(x / 2, k - 1);
    } else {
      var p := Pow(2, m - 1);
      var bit := Pow(2, m);
      assert bit == 2 * p && bit / 2 == p && bit % 2 == 0;
      var rest := BitAnd(p, x / 2, k - 1);
      assert rest == p * ((x / 2 / p) % 2) by { BitAndSingleBit(x / 2, m - 1, k - 1); }
      assert BitAnd(bit, x, k) == 2 * rest;
      assert x / 2 / p == x / bit by { ModDouble(x, p); }
      assert 2 * (p * ((x / 2 / p) % 2)) == bit * ((x / bit) % 2);
    }
  }

  lemma {:induction false} BitOrZero(a: nat, k: nat)
    ensures BitOr(a, 0, k) == a % Pow(2, k)
  {
    if k > 0 {
      BitOrZero(a / 2, k - 1);
      ModDouble(a, Pow(2, k - 1));
    }
  }

  /** Or of a value whose low m bits are clear with one below 2^m is their sum (modulo 2^k). */
  lemma {:induction false} BitOrDisjoint(a: nat, x: nat, m: nat, k: nat)
    requires m <= k && a % Pow(2, m) == 0 && x < Pow(2, m)
    ensures BitOr(a, x, k) == (a + x) % Pow(2, k)
  {
    if m == 0 {
      BitOrZero(a, k);
    } else {
      var p := Pow(2, m - 1);
      assert a % 2 == 0 && (a / 2) % p == 0 by {
        ModDouble(a, p);
      }
      assert x / 2 < p;
      BitOrDisjoint(a / 2, x / 2, m - 1, k - 1);
      ModDouble(a + x, Pow(2, k - 1));
      assert (a + x) / 2 == a / 2 + x / 2 && (a + x) % 2 == x % 2;
    }
  }
}
