/** Bytes, 32-bit words and their exclusive or, written out on binary digits. */
module Words {

  const TWO32: nat := 0x1_0000_0000

  type u32 = x: int | 0 <= x < TWO32
  type byte = x: int | 0 <= x < 256

  function Xor(a: nat, b: nat): nat
    decreases a + b
  {
    if a == 0 && b == 0 then 0
    else (if a % 2 == b % 2 then 0 else 1) + 2 * Xor(a / 2, b / 2)
  }

  lemma {:induction false} XorComm(a: nat, b: nat)
    ensures Xor(a, b) == Xor(b, a)
    decreases a + b
  {
    if a != 0 || b != 0 {
      XorComm(a / 2, b / 2);
    }
  }

  lemma {:induction false} XorAssoc(a: nat, b: nat, c: nat)
    ensures Xor(Xor(a, b), c) == Xor(a, Xor(b, c))
    decreases a + b + c
  {
    if a != 0 || b != 0 || c != 0 {
      XorDigits(a, b);
      XorDigits(b, c);
      XorDigits(Xor(a, b), c);
      XorDigits(a, Xor(b, c));
      XorAssoc(a / 2, b / 2, c / 2);
    }
  }

  lemma XorDigits(a: nat, b: nat)
    ensures Xor(a, b) / 2 == Xor(a / 2, b / 2)
    ensures Xor(a, b) % 2 == if a % 2 == b % 2 then 0 else 1
    ensures Xor(a, b) == Xor(a, b) % 2 + 2 * Xor(a / 2, b / 2)
  {
  }

  lemma {:induction false} XorZero(a: nat)
    ensures Xor(a, 0) == a && Xor(0, a) == a
    decreases a
  {
    if a != 0 {
      XorZero(a / 2);
    }
  }

  lemma {:induction false} XorSelf(a: nat)
    ensures Xor(a, a) == 0
    decreases a
  {
    if a != 0 {
      XorSelf(a / 2);
    }
  }

  function Pow2(k: nat): (p: nat)
    ensures p > 0
  {
    if k == 0 then 1 else 2 * Pow2(k - 1)
  }

  lemma {:induction false} XorBound(a: nat, b: nat, k: nat)
    requires a < Pow2(k) && b < Pow2(k)
    ensures Xor(a, b) < Pow2(k)
    decreases k
  {
    if k > 0 {
      XorBound(a / 2, b / 2, k - 1);
    }
  }

  lemma PowersOfTwo()
    ensures Pow2(8) == 256 && Pow2(16) == 65536 && Pow2(24) == 16777216 && Pow2(32) == TWO32
  {
    assert Pow2(4) == 16;
    assert Pow2(8) == 256;
    assert Pow2(12) == 4096;
    assert Pow2(16) == 65536;
    assert Pow2(20) == 1048576;
    assert Pow2(24) == 16777216;
    assert Pow2(28) == 268435456;
  }

  /** Exclusive or on machine words. */
  function Xor32(a: u32, b: u32): (r: u32)
    ensures r == Xor(a, b)
  {
    PowersOfTwo();
    XorBound(a, b, 32);
    Xor(a, b)
  }

  /** Words without common digits are just added. */
  lemma {:induction false} XorDisjoint(h: nat, l: nat, k: nat)
    requires l < Pow2(k)
    ensures Xor(Pow2(k) * h, l) == Pow2(k) * h + l
    decreases k
  {
    if k == 0 {
      XorZero(h);
    } else {
      var m := Pow2(k - 1) * h;
      assert Pow2(k) * h == 2 * m;
      XorDisjoint(h, l / 2, k - 1);
      XorDigits(2 * m, l);
      assert 2 * m / 2 == m && 2 * m % 2 == 0;
    }
  }

  lemma XorDisjointBytes(h: nat, l: nat)
    ensures l < 256 ==> Xor(256 * h, l) == 256 * h + l
    ensures l < 65536 ==> Xor(65536 * h, l) == 65536 * h + l
    ensures l < 16777216 ==> Xor(16777216 * h, l) == 16777216 * h + l
  {
    PowersOfTwo();
    if l < 256 {
      XorDisjoint(h, l, 8);
    }
    if l < 65536 {
      XorDisjoint(h, l, 16);
    }
    if l < 16777216 {
      XorDisjoint(h, l, 24);
    }
  }

  /** Regrouping of sums. */
  lemma XorShuffle(x: nat, y: nat, p: nat)
    ensures Xor(Xor(x, p), Xor(y, p)) == Xor(x, y)
    ensures Xor(Xor(x, p), y) == Xor(Xor(x, y), p)
    ensures Xor(x, Xor(y, p)) == Xor(Xor(x, y), p)
  {
    XorAssoc(x, y, p);
    XorAssoc(x, p, y);
    XorComm(p, y);
    XorAssoc(x, p, Xor(y, p));
    XorComm(y, p);
    XorAssoc(p, p, y);
    XorSelf(p);
    XorZero(y);
  }

  lemma MulMono(a: nat, b: nat, u: nat)
    requires a <= b
    ensures a * u <= b * u
  {
    assert b * u - a * u == (b - a) * u;
  }

  lemma QuotientOf(k: nat, u: nat, r: nat)
    requires r < u
    ensures (k * u + r) / u == k
  {
    var d := (k * u + r) / u - k;
    assert d * u == r - (k * u + r) % u;
    if d >= 1 {
      MulMono(1, d, u);
    }
  }
}
