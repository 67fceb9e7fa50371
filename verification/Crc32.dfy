/** Iterating a map that is linear with respect to a binary operation `x`. */
module LinearMaps {

  predicate LinearAt<T(==)>(f: T -> T, x: (T, T) -> T, a: T, b: T) {
    f(x(a, b)) == x(f(a), f(b))
  }

  ghost predicate Linear<T(!new)>(f: T -> T, x: (T, T) -> T) {
    forall a, b :: LinearAt(f, x, a, b)
  }

  function Iter<T>(f: T -> T, n: nat, c: T): T
    decreases n
  {
    if n == 0 then c else Iter(f, n - 1, f(c))
  }

  lemma {:induction false} IterLinear<T(!new)>(f: T -> T, x: (T, T) -> T, n: nat, a: T, b: T)
    requires Linear(f, x)
    ensures Iter(f, n, x(a, b)) == x(Iter(f, n, a), Iter(f, n, b))
    decreases n
  {
    if n > 0 {
      assert LinearAt(f, x, a, b);
      IterLinear(f, x, n - 1, f(a), f(b));
    }
  }

  lemma {:induction false} IterAdd<T>(f: T -> T, m: nat, n: nat, c: T)
    ensures Iter(f, m + n, c) == Iter(f, n, Iter(f, m, c))
    decreases m
  {
    if m > 0 {
      IterAdd(f, m - 1, n, f(c));
    }
  }

  /** An update of a sum can be split. */
  lemma IterSplit<T(!new)>(f: T -> T, x: (T, T) -> T, n: nat, c: T, hi: T, lo: T)
    requires Linear(f, x) && c == x(hi, lo)
    ensures Iter(f, n, c) == x(Iter(f, n, hi), Iter(f, n, lo))
  {
    IterLinear(f, x, n, hi, lo);
  }

  /** Feeding in, after n updates, something that n updates make of `s` is feeding `s` in at once. */
  lemma IterFeed<T(!new)>(f: T -> T, x: (T, T) -> T, n: nat, m: nat, w: T, s: T)
    requires Linear(f, x)
    ensures Iter(f, m, x(Iter(f, n, w), Iter(f, n, s))) == Iter(f, n + m, x(w, s))
  {
    IterLinear(f, x, n, w, s);
    IterAdd(f, n, m, x(w, s));
  }

  /** Four bytes fed in one after the other: s1, s2, s3 are the bytes at their places in a word. */
  lemma FeedFour<T(!new)>(f: T -> T, x: (T, T) -> T, c: T, b0: T, s1: T, s2: T, s3: T)
    requires Linear(f, x)
    ensures var c1 := Iter(f, 8, x(c, b0));
            var c2 := Iter(f, 8, x(c1, Iter(f, 8, s1)));
            var c3 := Iter(f, 8, x(c2, Iter(f, 16, s2)));
            Iter(f, 8, x(c3, Iter(f, 24, s3))) == Iter(f, 32, x(x(x(x(c, b0), s1), s2), s3))
  {
    IterFeed(f, x, 8, 8, x(c, b0), s1);
    IterFeed(f, x, 16, 8, x(x(c, b0), s1), s2);
    IterFeed(f, x, 24, 8, x(x(x(c, b0), s1), s2), s3);
  }

  lemma SplitFour<T(!new)>(f: T -> T, x: (T, T) -> T, n: nat, b0: T, s1: T, s2: T, s3: T)
    requires Linear(f, x)
    ensures Iter(f, n, x(x(x(b0, s1), s2), s3)) ==
              x(x(x(Iter(f, n, b0), Iter(f, n, s1)), Iter(f, n, s2)), Iter(f, n, s3))
  {
    IterLinear(f, x, n, b0, s1);
    IterLinear(f, x, n, x(b0, s1), s2);
    IterLinear(f, x, n, x(x(b0, s1), s2), s3);
  }

  predicate AssocAt<T(==)>(x: (T, T) -> T, a: T, b: T, c: T) {
    x(x(a, b), c) == x(a, x(b, c))
  }

  ghost predicate Assoc<T(!new)>(x: (T, T) -> T) {
    forall a, b, c :: AssocAt(x, a, b, c)
  }

  /** Four summands, added up from the left. */
  function Sum4<T>(x: (T, T) -> T, a: T, b: T, c: T, d: T): T {
    x(x(x(a, b), c), d)
  }

  lemma SumOnto<T(!new)>(x: (T, T) -> T, l: T, a: T, b: T, c: T, d: T)
    requires Assoc(x)
    ensures x(l, Sum4(x, a, b, c, d)) == x(Sum4(x, l, a, b, c), d)
  {
    assert AssocAt(x, l, x(x(a, b), c), d);
    assert AssocAt(x, l, x(a, b), c);
    assert AssocAt(x, l, a, b);
  }

  /** Two words of four bytes each: the first meets the register `c`. */
  lemma FeedEight<T(!new)>(f: T -> T, x: (T, T) -> T, c: T, w0: T, w1: T,
                           o0: T, o1: T, o2: T, o3: T, t0: T, t1: T, t2: T, t3: T)
    requires Linear(f, x) && Assoc(x)
    requires x(c, w0) == Sum4(x, o0, o1, o2, o3) && w1 == Sum4(x, t0, t1, t2, t3)
    ensures Iter(f, 32, x(Iter(f, 32, x(c, w0)), w1)) ==
      x(Sum4(x, Sum4(x, Iter(f, 64, o0), Iter(f, 64, o1), Iter(f, 64, o2), Iter(f, 64, o3)),
                Iter(f, 32, t0), Iter(f, 32, t1), Iter(f, 32, t2)), Iter(f, 32, t3))
  {
    var a := Iter(f, 32, x(c, w0));
    IterLinear(f, x, 32, a, w1);
    IterAdd(f, 32, 32, x(c, w0));
    SplitFour(f, x, 64, o0, o1, o2, o3);
    SplitFour(f, x, 32, t0, t1, t2, t3);
    SumOnto(x, Sum4(x, Iter(f, 64, o0), Iter(f, 64, o1), Iter(f, 64, o2), Iter(f, 64, o3)),
            Iter(f, 32, t0), Iter(f, 32, t1), Iter(f, 32, t2), Iter(f, 32, t3));
  }

  /** Something added after n updates could have been added before them, as `s` on top of `w`. */
  lemma AddedLater<T(!new)>(f: T -> T, x: (T, T) -> T, n: nat, m: nat, c: T, w: T, s: T, b: T, t: T)
    requires Linear(f, x) && Assoc(x) && b == Iter(f, n, s) && t == x(w, s)
    ensures Iter(f, m, x(Iter(f, n, x(c, w)), b)) == Iter(f, n + m, x(c, t))
  {
    IterFeed(f, x, n, m, x(c, w), s);
    SumLow(x, c, w, s);
  }

  /** Adding on the low part only. */
  lemma SumLow<T(!new)>(x: (T, T) -> T, hi: T, lo: T, b: T)
    requires Assoc(x)
    ensures x(x(hi, lo), b) == x(hi, x(lo, b))
  {
    assert AssocAt(x, hi, lo, b);
  }
}

/** The slicing-by-8 CRC of dp/core/blk_index.c (init_crc, newer_crc), proved equal to the
    bit-at-a-time reflected CRC-32 of section 8 of RFC 1952 on every byte string.

    The argument is linearity over GF(2): a register update is a linear map, so eight table look-ups
    can be added up. */
module Crc32 {
  import opened LinearMaps
  import opened Words

  const POLYNOMIAL: u32 := 0xEDB88320
  const ONES: u32 := 0xFFFFFFFF

  // ---------------------------------------------------------------------------------------------
  // The reference: one message bit at a time
  // ---------------------------------------------------------------------------------------------

  /** Shift one message bit into the register: when it differs from the bit that falls out, the
      polynomial is added. */
  function ShiftBit(c: nat, bit: nat): nat {
    if c % 2 == bit then c / 2 else Xor(c / 2, POLYNOMIAL)
  }

  /** Shift the low `n` bits of `b` into the register, least significant first. */
  function ShiftBits(c: nat, b: nat, n: nat): nat
    decreases n
  {
    if n == 0 then c else ShiftBits(ShiftBit(c, b % 2), b / 2, n - 1)
  }

  function ShiftBytes(c: nat, data: seq<byte>): nat
    decreases |data|
  {
    if data == [] then c else ShiftBytes(ShiftBits(c, data[0], 8), data[1..])
  }

  /** CRC-32 with initial and final complement. */
  function Crc(data: seq<byte>): nat {
    Xor(ShiftBytes(ONES, data), ONES)
  }

  // ---------------------------------------------------------------------------------------------
  // The register update is linear
  // ---------------------------------------------------------------------------------------------

  /** The branch-free update (c >> 1) ^ ((c & 1) * p). */
  function Update(c: nat, p: nat): nat {
    Xor(c / 2, c % 2 * p)
  }

  lemma UpdateCases(c: nat, p: nat)
    ensures Update(c, p) == if c % 2 == 0 then c / 2 else Xor(c / 2, p)
  {
    XorZero(c / 2);
    Masked(c % 2, p);
  }

  lemma Masked(bit: nat, p: nat)
    requires bit < 2
    ensures bit * p == if bit == 0 then 0 else p
  {
  }

  lemma UpdateLinear(a: nat, b: nat, p: nat)
    ensures Update(Xor(a, b), p) == Xor(Update(a, p), Update(b, p))
  {
    XorDigits(a, b);
    UpdateCases(a, p);
    UpdateCases(b, p);
    UpdateCases(Xor(a, b), p);
    XorShuffle(a / 2, b / 2, p);
  }

  /** Shifting a message bit in is adding it and updating. */
  lemma UpdateShift(c: nat, b: nat, p: nat)
    ensures Update(Xor(c, b), p) == Xor(if c % 2 == b % 2 then c / 2 else Xor(c / 2, p), b / 2)
  {
    XorDigits(c, b);
    UpdateCases(Xor(c, b), p);
    XorShuffle(c / 2, b / 2, p);
  }

  lemma UpdateEven(m: nat, p: nat)
    ensures Update(2 * m, p) == m
  {
    assert 2 * m / 2 == m && 2 * m % 2 == 0;
    assert 2 * m % 2 * p == 0;
    XorZero(m);
  }

  // ---------------------------------------------------------------------------------------------
  // Adding up table entries, for any linear update that halves even registers
  // ---------------------------------------------------------------------------------------------

  predicate HalvesAt(f: nat -> nat, m: nat) {
    f(2 * m) == m
  }

  ghost predicate Halves(f: nat -> nat) {
    forall m :: HalvesAt(f, m)
  }

  ghost predicate Regular(f: nat -> nat) {
    Linear<nat>(f, Xor) && Halves(f)
  }

  /** Updates of a register with zero low digits only shift it. */
  lemma {:induction false} StepsFall(f: nat -> nat, h: nat, n: nat)
    requires Halves(f)
    ensures Iter<nat>(f, n, Pow2(n) * h) == h
    decreases n
  {
    if n > 0 {
      var m := Pow2(n - 1) * h;
      assert Pow2(n) * h == 2 * m;
      assert HalvesAt(f, m);
      StepsFall(f, h, n - 1);
    }
  }

  /** A byte `bits` digits up the word reaches the bottom after that many updates. */
  lemma ByteFalls(f: nat -> nat, b: nat, bits: nat, n: nat)
    requires Halves(f)
    ensures Iter<nat>(f, bits + n, Pow2(bits) * b) == Iter<nat>(f, n, b)
  {
    StepsFall(f, b, bits);
    IterAdd<nat>(f, bits, n, Pow2(bits) * b);
  }

  lemma BytesFall(f: nat -> nat, b: nat, n: nat)
    requires Halves(f)
    ensures Iter<nat>(f, 8 + n, 256 * b) == Iter<nat>(f, n, b)
    ensures Iter<nat>(f, 16 + n, 65536 * b) == Iter<nat>(f, n, b)
    ensures Iter<nat>(f, 24 + n, 16777216 * b) == Iter<nat>(f, n, b)
  {
    PowersOfTwo();
    ByteFalls(f, b, 8, n);
    ByteFalls(f, b, 16, n);
    ByteFalls(f, b, 24, n);
  }

  /** Entry i of table k: 8 * (k + 1) updates of the byte i. */
  function Entry(f: nat -> nat, k: nat, i: nat): nat {
    Iter<nat>(f, 8 * (k + 1), i)
  }

  lemma SplitLowByte(c: nat)
    ensures c == Xor(256 * (c / 256), c % 256)
  {
    XorDisjointBytes(c / 256, c % 256);
  }

  lemma FallsToHigh(f: nat -> nat, h: nat)
    requires Halves(f)
    ensures Iter<nat>(f, 8, 256 * h) == h
  {
    BytesFall(f, h, 0);
  }

  /** A byte-wise update: shift, and look the low byte up in table 0. */
  lemma ByteStep(f: nat -> nat, c: nat)
    requires Regular(f)
    ensures Iter<nat>(f, 8, c) == Xor(c / 256, Entry(f, 0, c % 256))
  {
    var h, l := c / 256, c % 256;
    var s := 256 * h;
    SplitLowByte(c);
    FallsToHigh(f, h);
    IterSplit<nat>(f, Xor, 8, c, s, l);
  }

  /** The recurrence by which init_crc fills table k + 1 from table k. */
  lemma EntryStep(f: nat -> nat, k: nat, i: nat)
    requires Regular(f)
    ensures Entry(f, k + 1, i) == Xor(Entry(f, k, i) / 256, Entry(f, 0, Entry(f, k, i) % 256))
  {
    IterAdd<nat>(f, 8 * (k + 1), 8, i);
    ByteStep(f, Entry(f, k, i));
  }

  /** Four bytes as a little-endian word. */
  function Word(b0: nat, b1: nat, b2: nat, b3: nat): nat {
    b0 + 256 * b1 + 65536 * b2 + 16777216 * b3
  }

  lemma WordIsSum(b0: byte, b1: byte, b2: byte, b3: byte)
    ensures Word(b0, b1, b2, b3) == Xor(Xor(Xor(b0, 256 * b1), 65536 * b2), 16777216 * b3)
  {
    XorComm(256 * b1, b0);
    XorDisjointBytes(b1, b0);
    var l2 := b0 + 256 * b1;
    XorComm(65536 * b2, l2);
    XorDisjointBytes(b2, l2);
    var l3 := l2 + 65536 * b2;
    XorComm(16777216 * b3, l3);
    XorDisjointBytes(b3, l3);
  }

  lemma PlacedBytes(f: nat -> nat, b1: nat, b2: nat, b3: nat, k: nat)
    requires Halves(f)
    ensures Iter<nat>(f, 8 * (k + 4), 256 * b1) == Entry(f, k + 2, b1)
    ensures Iter<nat>(f, 8 * (k + 4), 65536 * b2) == Entry(f, k + 1, b2)
    ensures Iter<nat>(f, 8 * (k + 4), 16777216 * b3) == Entry(f, k, b3)
  {
    BytesFall(f, b1, 8 * (k + 3));
    BytesFall(f, b2, 8 * (k + 2));
    BytesFall(f, b3, 8 * (k + 1));
  }

  lemma PlacedFall(f: nat -> nat, b1: nat, b2: nat, b3: nat)
    requires Halves(f)
    ensures Iter<nat>(f, 8, 256 * b1) == b1
    ensures Iter<nat>(f, 16, 65536 * b2) == b2
    ensures Iter<nat>(f, 24, 16777216 * b3) == b3
  {
    BytesFall(f, b1, 0);
    BytesFall(f, b2, 0);
    BytesFall(f, b3, 0);
  }

  /** The register after some bytes, each added in and followed by eight updates. */
  function FeedBytes(f: nat -> nat, c: nat, data: seq<byte>): nat
    decreases |data|
  {
    if data == [] then c else FeedBytes(f, Iter<nat>(f, 8, Xor(c, data[0])), data[1..])
  }

  /** Four bytes can be added in at once as a word. */
  lemma FeedWord(f: nat -> nat, c: nat, b0: byte, b1: byte, b2: byte, b3: byte)
    requires Regular(f)
    ensures FeedBytes(f, c, [b0, b1, b2, b3]) == Iter<nat>(f, 32, Xor(c, Word(b0, b1, b2, b3)))
  {
    var s1, s2, s3 := 256 * b1, 65536 * b2, 16777216 * b3;
    FeedUnfold(f, c, b0, b1, b2, b3);
    assert FeedBytes(f, c, [b0, b1, b2, b3]) == Iter<nat>(f, 32, Xor(Xor(Xor(Xor(c, b0), s1), s2), s3)) by {
      PlacedFall(f, b1, b2, b3);
      FeedFour<nat>(f, Xor, c, b0, s1, s2, s3);
    }
    WordIsSum(b0, b1, b2, b3);
    XorFour(c, b0, s1, s2, s3);
  }

  lemma XorFour(c: nat, a: nat, b: nat, d: nat, e: nat)
    ensures Xor(Xor(Xor(Xor(c, a), b), d), e) == Xor(c, Xor(Xor(Xor(a, b), d), e))
  {
    XorAssoc(c, a, b);
    XorAssoc(c, Xor(a, b), d);
    XorAssoc(c, Xor(Xor(a, b), d), e);
  }

  lemma FeedUnfold(f: nat -> nat, c: nat, b0: byte, b1: byte, b2: byte, b3: byte)
    ensures var c1 := Iter<nat>(f, 8, Xor(c, b0));
            var c2 := Iter<nat>(f, 8, Xor(c1, b1));
            var c3 := Iter<nat>(f, 8, Xor(c2, b2));
            FeedBytes(f, c, [b0, b1, b2, b3]) == Iter<nat>(f, 8, Xor(c3, b3))
  {
    var c1 := Iter<nat>(f, 8, Xor(c, b0));
    var c2 := Iter<nat>(f, 8, Xor(c1, b1));
    var c3 := Iter<nat>(f, 8, Xor(c2, b2));
    assert [b0, b1, b2, b3][1..] == [b1, b2, b3] && [b1, b2, b3][1..] == [b2, b3];
    assert [b2, b3][1..] == [b3] && [b3][1..] == [];
    assert FeedBytes(f, c, [b0, b1, b2, b3]) == FeedBytes(f, c1, [b1, b2, b3]);
    assert FeedBytes(f, c1, [b1, b2, b3]) == FeedBytes(f, c2, [b2, b3]);
    assert FeedBytes(f, c2, [b2, b3]) == FeedBytes(f, c3, [b3]);
  }

  // ---------------------------------------------------------------------------------------------
  // The CRC register
  // ---------------------------------------------------------------------------------------------

  /** One update of the register. */
  function Step(c: nat): nat {
    Update(c, POLYNOMIAL)
  }

  lemma StepRegular()
    ensures Regular(Step)
  {
    forall a: nat, b: nat
      ensures LinearAt<nat>(Step, Xor, a, b)
    {
      UpdateLinear(a, b, POLYNOMIAL);
    }
    forall m: nat
      ensures HalvesAt(Step, m)
    {
      UpdateEven(m, POLYNOMIAL);
    }
  }

  function HalfTimes(b: nat, n: nat): nat
    decreases n
  {
    if n == 0 then b else HalfTimes(b / 2, n - 1)
  }

  lemma {:induction false} StepsShift(c: nat, b: nat, n: nat)
    ensures Iter<nat>(Step, n, Xor(c, b)) == Xor(ShiftBits(c, b, n), HalfTimes(b, n))
    decreases n
  {
    if n > 0 {
      UpdateShift(c, b, POLYNOMIAL);
      assert Step(Xor(c, b)) == Xor(ShiftBit(c, b % 2), b / 2);
      StepsShift(ShiftBit(c, b % 2), b / 2, n - 1);
    }
  }

  lemma {:induction false} HalvedAway(b: nat, n: nat)
    requires b < Pow2(n)
    ensures HalfTimes(b, n) == 0
    decreases n
  {
    if n > 0 {
      HalvedAway(b / 2, n - 1);
    }
  }

  /** Shifting a byte in is adding it to the register and updating eight times. */
  lemma ByteShift(c: nat, b: byte)
    ensures ShiftBits(c, b, 8) == Iter<nat>(Step, 8, Xor(c, b))
  {
    StepsShift(c, b, 8);
    PowersOfTwo();
    HalvedAway(b, 8);
    XorZero(ShiftBits(c, b, 8));
  }

  /** Shifting bytes in bit by bit is feeding them to the register. */
  lemma {:induction false} ShiftIsFeed(c: nat, data: seq<byte>)
    ensures ShiftBytes(c, data) == FeedBytes(Step, c, data)
    decreases |data|
  {
    if data != [] {
      ByteShift(c, data[0]);
      ShiftIsFeed(ShiftBits(c, data[0], 8), data[1..]);
    }
  }

  lemma {:induction false} FeedConcat(f: nat -> nat, c: nat, a: seq<byte>, b: seq<byte>)
    ensures FeedBytes(f, c, a + b) == FeedBytes(f, FeedBytes(f, c, a), b)
    decreases |a|
  {
    if a == [] {
      assert a + b == b;
    } else {
      assert (a + b)[1..] == a[1..] + b;
      FeedConcat(f, Iter<nat>(f, 8, Xor(c, a[0])), a[1..], b);
    }
  }

  lemma DivByBytes(h: nat, m: nat)
    ensures m < 256 ==> (256 * h + m) / 256 == h && (256 * h + m) % 256 == m
    ensures m < 65536 ==> (65536 * h + m) / 65536 == h
    ensures m < 16777216 ==> (16777216 * h + m) / 16777216 == h
  {
  }

  lemma BytesOfWord(b0: byte, b1: byte, b2: byte, b3: byte)
    ensures var w := Word(b0, b1, b2, b3);
      && w < TWO32 && w % 256 == b0 && w / 256 % 256 == b1 && w / 65536 % 256 == b2 && w / 16777216 == b3
  {
    var w := Word(b0, b1, b2, b3);
    DivByBytes(b1 + 256 * b2 + 65536 * b3, b0);
    DivByBytes(b2 + 256 * b3, b1);
    assert w == 65536 * (b2 + 256 * b3) + (b0 + 256 * b1);
    DivByBytes(b2 + 256 * b3, b0 + 256 * b1);
    DivByBytes(b3, b2);
    DivByBytes(b3, b0 + 256 * b1 + 65536 * b2);
  }

  /** The bytes of a word. */
  lemma WordBytes(w: nat)
    requires w < TWO32
    ensures w == Word(w % 256, w / 256 % 256, w / 65536 % 256, w / 16777216)
    ensures w / 16777216 < 256
  {
    var q1 := w / 256;
    var q2 := q1 / 256;
    var q3 := q2 / 256;
    BytesOfWord(w % 256, q1 % 256, q2 % 256, q3);
  }

  /** Eight bytes: two words, one after the other. */
  lemma FeedTwoWords(f: nat -> nat, c: nat, d: seq<byte>)
    requires Regular(f) && |d| == 8
    ensures var w0, w1 := Word(d[0], d[1], d[2], d[3]), Word(d[4], d[5], d[6], d[7]);
            FeedBytes(f, c, d) == Iter<nat>(f, 32, Xor(Iter<nat>(f, 32, Xor(c, w0)), w1))
  {
    var w0 := Word(d[0], d[1], d[2], d[3]);
    var l, r := [d[0], d[1], d[2], d[3]], [d[4], d[5], d[6], d[7]];
    assert d == l + r;
    FeedConcat(f, c, l, r);
    FeedWord(f, c, d[0], d[1], d[2], d[3]);
    FeedWord(f, Iter<nat>(f, 32, Xor(c, w0)), d[4], d[5], d[6], d[7]);
  }

  lemma XorIsAssoc()
    ensures Assoc<nat>(Xor)
  {
    forall a: nat, b: nat, c: nat
      ensures AssocAt<nat>(Xor, a, b, c)
    {
      XorAssoc(a, b, c);
    }
  }

  /** Eight look-ups, added up from the left as newer_crc does. */
  function SumEight(x: (nat, nat) -> nat, a: nat, b: nat, c: nat, d: nat, e: nat, g: nat, h: nat, i: nat): nat {
    x(Sum4<nat>(x, Sum4<nat>(x, a, b, c, d), e, g, h), i)
  }

  /** The slicing step: eight table look-ups advance the register over eight bytes.  o0..o3 are the
      bytes of the register combined with the first word. */
  lemma SliceStep(f: nat -> nat, c: nat, d: seq<byte>, o0: byte, o1: byte, o2: byte, o3: byte)
    requires Regular(f) && |d| == 8 && Word(o0, o1, o2, o3) == Xor(c, Word(d[0], d[1], d[2], d[3]))
    ensures FeedBytes(f, c, d) ==
      SumEight(Xor, Entry(f, 7, o0), Entry(f, 6, o1), Entry(f, 5, o2), Entry(f, 4, o3),
               Entry(f, 3, d[4]), Entry(f, 2, d[5]), Entry(f, 1, d[6]), Entry(f, 0, d[7]))
  {
    FeedTwoWords(f, c, d);
    SliceWords(f, Xor, c, Word(d[0], d[1], d[2], d[3]), Word(d[4], d[5], d[6], d[7]),
               o0, o1, o2, o3, d[4], d[5], d[6], d[7]) by {
      XorIsAssoc();
      WordIsSum(o0, o1, o2, o3);
      WordIsSum(d[4], d[5], d[6], d[7]);
    }
  }

  /** The same with the sum kept abstract. */
  lemma SliceWords(f: nat -> nat, x: (nat, nat) -> nat, c: nat, w0: nat, w1: nat,
                   o0: byte, o1: byte, o2: byte, o3: byte, d0: byte, d1: byte, d2: byte, d3: byte)
    requires Linear<nat>(f, x) && Assoc<nat>(x) && Halves(f)
    requires x(c, w0) == Sum4<nat>(x, o0, 256 * o1, 65536 * o2, 16777216 * o3)
    requires w1 == Sum4<nat>(x, d0, 256 * d1, 65536 * d2, 16777216 * d3)
    ensures Iter<nat>(f, 32, x(Iter<nat>(f, 32, x(c, w0)), w1)) ==
      SumEight(x, Entry(f, 7, o0), Entry(f, 6, o1), Entry(f, 5, o2), Entry(f, 4, o3),
               Entry(f, 3, d0), Entry(f, 2, d1), Entry(f, 1, d2), Entry(f, 0, d3))
  {
    FeedEight<nat>(f, x, c, w0, w1, o0, 256 * o1, 65536 * o2, 16777216 * o3,
                   d0, 256 * d1, 65536 * d2, 16777216 * d3);
    PlacedBytes(f, o1, o2, o3, 4);
    PlacedBytes(f, d1, d2, d3, 0);
  }

  lemma XorLowBound(l: nat, b: byte)
    requires l < 256
    ensures Xor(l, b) < 256
  {
    PowersOfTwo();
    XorBound(l, b, 8);
  }

  /** Adding a byte only touches the low byte of the register. */
  lemma XorLow(c: nat, b: byte)
    ensures Xor(c % 256, b) < 256
    ensures Xor(c, b) / 256 == c / 256 && Xor(c, b) % 256 == Xor(c % 256, b)
  {
    XorLowBound(c % 256, b);
    var m := Xor(c % 256, b);
    assert Xor(c, b) == 256 * (c / 256) + m by {
      XorLowSum(Xor, c, b, c / 256, c % 256, m) by {
        SplitLowByte(c);
        XorIsAssoc();
        XorDisjointBytes(c / 256, m);
      }
    }
    DivByBytes(c / 256, m);
  }

  lemma XorLowSum(x: (nat, nat) -> nat, c: nat, b: nat, h: nat, l: nat, m: nat)
    requires Assoc<nat>(x) && c == x(256 * h, l) && m == x(l, b) && x(256 * h, m) == 256 * h + m
    ensures x(c, b) == 256 * h + m
  {
    SumLow<nat>(x, 256 * h, l, b);
  }

  /** The byte-wise step of the tail loop. */
  lemma TailStep(f: nat -> nat, c: nat, b: byte)
    requires Regular(f)
    ensures Xor(c % 256, b) < 256
    ensures Iter<nat>(f, 8, Xor(c, b)) == Xor(c / 256, Entry(f, 0, Xor(c % 256, b)))
  {
    XorLow(c, b);
    ByteStep(f, Xor(c, b));
  }

  lemma XorWithOdd(c: nat, o: nat)
    ensures Xor(c, 2 * o + 1) == 1 - c % 2 + 2 * Xor(c / 2, o)
  {
    assert (2 * o + 1) / 2 == o && (2 * o + 1) % 2 == 1;
  }

  /** Adding a word of ones complements every digit. */
  lemma {:induction false} XorOnes(c: nat, o: nat, k: nat)
    requires o + 1 == Pow2(k) && c <= o
    ensures Xor(c, o) == o - c
    decreases k
  {
    if k > 0 {
      var h := o / 2;
      assert o == 2 * h + 1;
      XorOnes(c / 2, h, k - 1);
      XorWithOdd(c, h);
    }
  }

  // ---------------------------------------------------------------------------------------------
  // What the checksum detects
  // ---------------------------------------------------------------------------------------------

  lemma {:induction false} XorZeroEqual(a: nat, b: nat)
    requires Xor(a, b) == 0
    ensures a == b
    decreases a + b
  {
    if a != 0 || b != 0 {
      XorDigits(a, b);
      XorZeroEqual(a / 2, b / 2);
    }
  }

  lemma XorWord(a: nat, b: nat)
    requires a < TWO32 && b < TWO32
    ensures Xor(a, b) < TWO32
  {
    PowersOfTwo();
    XorBound(a, b, 32);
  }

  /** An update of a word is a word, and only zero becomes zero: the polynomial has its top bit set. */
  lemma StepWord(c: nat)
    requires c < TWO32
    ensures Step(c) < TWO32 && (Step(c) == 0 ==> c == 0)
  {
    UpdateCases(c, POLYNOMIAL);
    XorWord(c / 2, POLYNOMIAL);
    if c % 2 == 1 && Step(c) == 0 {
      XorZeroEqual(c / 2, POLYNOMIAL);
    }
  }

  predicate WordAt(f: nat -> nat, c: nat) {
    c < TWO32 ==> f(c) < TWO32 && (f(c) == 0 ==> c == 0)
  }

  lemma {:induction false} IterWord(f: nat -> nat, n: nat, c: nat)
    requires (forall d :: WordAt(f, d)) && c < TWO32
    ensures Iter<nat>(f, n, c) < TWO32 && (Iter<nat>(f, n, c) == 0 ==> c == 0)
    decreases n
  {
    if n > 0 {
      assert WordAt(f, c);
      IterWord(f, n - 1, f(c));
    }
  }

  lemma StepsWord(n: nat, c: nat)
    requires c < TWO32
    ensures Iter<nat>(Step, n, c) < TWO32 && (Iter<nat>(Step, n, c) == 0 ==> c == 0)
  {
    forall d: nat
      ensures WordAt(Step, d)
    {
      if d < TWO32 {
        StepWord(d);
      }
    }
    IterWord(Step, n, c);
  }

  /** Different registers stay different. */
  lemma StepsDiffer(n: nat, c: nat, d: nat)
    requires c < TWO32 && d < TWO32 && c != d
    ensures Iter<nat>(Step, n, c) != Iter<nat>(Step, n, d)
  {
    StepRegular();
    XorWord(c, d);
    StepsWord(n, Xor(c, d));
    IterLinear<nat>(Step, Xor, n, c, d);
    if Xor(c, d) == 0 {
      XorZeroEqual(c, d);
    }
    XorSelf(Iter<nat>(Step, n, c));
  }

  lemma AddedDiffer(c: nat, x: nat, y: nat)
    requires x != y
    ensures Xor(c, x) != Xor(c, y) && Xor(x, c) != Xor(y, c)
  {
    XorShuffle(x, y, c);
    XorComm(c, x);
    XorComm(c, y);
    if Xor(x, c) == Xor(y, c) {
      XorSelf(Xor(x, c));
      XorZeroEqual(x, y);
    }
  }

  lemma {:induction false} FeedWordBound(c: nat, data: seq<byte>)
    requires c < TWO32
    ensures FeedBytes(Step, c, data) < TWO32
    decreases |data|
  {
    if data != [] {
      XorWord(c, data[0]);
      StepsWord(8, Xor(c, data[0]));
      FeedWordBound(Iter<nat>(Step, 8, Xor(c, data[0])), data[1..]);
    }
  }

  lemma {:induction false} FeedDiffers(c: nat, d: nat, data: seq<byte>)
    requires c < TWO32 && d < TWO32 && c != d
    ensures FeedBytes(Step, c, data) != FeedBytes(Step, d, data)
    decreases |data|
  {
    if data != [] {
      var x := data[0];
      XorWord(c, x);
      XorWord(d, x);
      AddedDiffer(x, c, d);
      StepsDiffer(8, Xor(c, x), Xor(d, x));
      StepsWord(8, Xor(c, x));
      StepsWord(8, Xor(d, x));
      FeedDiffers(Iter<nat>(Step, 8, Xor(c, x)), Iter<nat>(Step, 8, Xor(d, x)), data[1..]);
    }
  }

  /** The checksum is a 32-bit word. */
  lemma CrcIsWord(data: seq<byte>)
    ensures Crc(data) < TWO32
  {
    ShiftIsFeed(ONES, data);
    FeedWordBound(ONES, data);
    XorWord(FeedBytes(Step, ONES, data), ONES);
  }

  /** Strings that leave different registers at some point, and go on alike, have different checksums. */
  lemma DifferentFromHere(a: seq<byte>, u: seq<byte>, v: seq<byte>, b: seq<byte>, c: nat)
    requires c == FeedBytes(Step, ONES, a) && FeedBytes(Step, c, u) != FeedBytes(Step, c, v)
    ensures Crc(a + u + b) != Crc(a + v + b)
  {
    FeedWordBound(ONES, a);
    FeedWordBound(c, u);
    FeedWordBound(c, v);
    FeedConcat(Step, ONES, a, u);
    FeedConcat(Step, ONES, a, v);
    FeedConcat(Step, ONES, a + u, b);
    FeedConcat(Step, ONES, a + v, b);
    FeedDiffers(FeedBytes(Step, c, u), FeedBytes(Step, c, v), b);
    ShiftIsFeed(ONES, a + u + b);
    ShiftIsFeed(ONES, a + v + b);
    AddedDiffer(ONES, FeedBytes(Step, ONES, a + u + b), FeedBytes(Step, ONES, a + v + b));
  }

  /** Any corruption of one byte is detected ... */
  lemma OneByteDetected(a: seq<byte>, x: byte, y: byte, b: seq<byte>)
    requires x != y
    ensures Crc(a + [x] + b) != Crc(a + [y] + b)
  {
    var c := FeedBytes(Step, ONES, a);
    FeedWordBound(ONES, a);
    AddedStepsDiffer(8, c, x, y);
    FeedOne(c, x);
    FeedOne(c, y);
    DifferentFromHere(a, [x], [y], b, c);
  }

  lemma FeedOne(c: nat, x: byte)
    ensures FeedBytes(Step, c, [x]) == Iter<nat>(Step, 8, Xor(c, x))
  {
    assert [x][1..] == [];
  }

  lemma WordsDiffer(u: seq<byte>, v: seq<byte>)
    requires |u| == 4 && |v| == 4 && u != v
    ensures Word(u[0], u[1], u[2], u[3]) < TWO32 && Word(v[0], v[1], v[2], v[3]) < TWO32
    ensures Word(u[0], u[1], u[2], u[3]) != Word(v[0], v[1], v[2], v[3])
  {
    BytesOfWord(u[0], u[1], u[2], u[3]);
    BytesOfWord(v[0], v[1], v[2], v[3]);
  }

  lemma FeedFourBytes(f: nat -> nat, c: nat, u: seq<byte>)
    requires Regular(f) && |u| == 4
    ensures FeedBytes(f, c, u) == Iter<nat>(f, 32, Xor(c, Word(u[0], u[1], u[2], u[3])))
  {
    FeedWord(f, c, u[0], u[1], u[2], u[3]);
    assert u == [u[0], u[1], u[2], u[3]];
  }

  lemma AddedStepsDiffer(n: nat, c: nat, x: nat, y: nat)
    requires c < TWO32 && x < TWO32 && y < TWO32 && x != y
    ensures Iter<nat>(Step, n, Xor(c, x)) != Iter<nat>(Step, n, Xor(c, y))
  {
    XorWord(c, x);
    XorWord(c, y);
    AddedDiffer(c, x, y);
    StepsDiffer(n, Xor(c, x), Xor(c, y));
  }

  /** ... and so is any corruption within four bytes in a row. */
  lemma BurstDetected(a: seq<byte>, u: seq<byte>, v: seq<byte>, b: seq<byte>)
    requires |u| == 4 && |v| == 4 && u != v
    ensures Crc(a + u + b) != Crc(a + v + b)
  {
    var c := FeedBytes(Step, ONES, a);
    FeedWordBound(ONES, a);
    WordsDiffer(u, v);
    AddedStepsDiffer(32, c, Word(u[0], u[1], u[2], u[3]), Word(v[0], v[1], v[2], v[3]));
    StepRegular();
    FeedFourBytes(Step, c, u);
    FeedFourBytes(Step, c, v);
    DifferentFromHere(a, u, v, b, c);
  }

  /** Five bytes as a number, the bits in the order in which they are shifted in from the lowest up. */
  function FiveBytes(u: seq<byte>): nat
    requires |u| == 5
  {
    TWO32 * u[4] + Word(u[0], u[1], u[2], u[3])
  }

  lemma FeedFiveBytes(f: nat -> nat, c: nat, u: seq<byte>)
    requires Regular(f) && |u| == 5
    ensures FeedBytes(f, c, u) == Iter<nat>(f, 40, Xor(c, FiveBytes(u)))
  {
    var w := Word(u[0], u[1], u[2], u[3]);
    FeedFourAndOne(f, c, u, u[..4], u[4], w);
    BytesOfWord(u[0], u[1], u[2], u[3]);
    FifthLater(f, c, w, u[4], FiveBytes(u));
  }

  lemma FeedFourAndOne(f: nat -> nat, c: nat, u: seq<byte>, four: seq<byte>, b: byte, w: nat)
    requires Regular(f) && |four| == 4 && u == four + [b] && w == Word(four[0], four[1], four[2], four[3])
    ensures FeedBytes(f, c, u) == Iter<nat>(f, 8, Xor(Iter<nat>(f, 32, Xor(c, w)), b))
  {
    FeedConcat(f, c, four, [b]);
    FeedFourBytes(f, c, four);
    FeedLast(f, FeedBytes(f, c, four), b);
  }

  /** A byte added after 32 updates could have been added before them, 32 places up. */
  lemma FifthLater(f: nat -> nat, c: nat, w: nat, b: byte, all: nat)
    requires Regular(f) && w < TWO32 && all == TWO32 * b + w
    ensures Iter<nat>(f, 8, Xor(Iter<nat>(f, 32, Xor(c, w)), b)) == Iter<nat>(f, 40, Xor(c, all))
  {
    var s := FifthPlace(f, b);
    FifthAdded(w, b, s);
    XorAddedLater(f, 32, 8, c, w, s, b, all);
  }

  lemma XorAddedLater(f: nat -> nat, n: nat, m: nat, c: nat, w: nat, s: nat, b: nat, all: nat)
    requires Regular(f) && b == Iter<nat>(f, n, s) && all == Xor(w, s)
    ensures Iter<nat>(f, m, Xor(Iter<nat>(f, n, Xor(c, w)), b)) == Iter<nat>(f, n + m, Xor(c, all))
  {
    XorIsAssoc();
    AddedLater<nat>(f, Xor, n, m, c, w, s, b, all);
  }

  lemma FeedLast(f: nat -> nat, c: nat, b: byte)
    ensures FeedBytes(f, c, [b]) == Iter<nat>(f, 8, Xor(c, b))
  {
    assert [b][1..] == [];
  }

  /** The fifth byte, 32 places up. */
  lemma FifthPlace(f: nat -> nat, b: byte) returns (s: nat)
    requires Halves(f)
    ensures s == TWO32 * b && Iter<nat>(f, 32, s) == b
  {
    s := Pow2(32) * b;
    StepsFall(f, b, 32);
    PowersOfTwo();
  }

  lemma FifthAdded(w: nat, b: byte, s: nat)
    requires w < TWO32 && s == TWO32 * b
    ensures Xor(w, s) == TWO32 * b + w
  {
    PowersOfTwo();
    XorDisjoint(b, w, 32);
    XorComm(w, s);
  }

  /** Any burst of up to 32 bits is detected, wherever it begins: `u` and `v` differ in the bits from k on, by
      the pattern `burst`. */
  lemma BitBurstDetected(a: seq<byte>, u: seq<byte>, v: seq<byte>, b: seq<byte>, k: nat, burst: nat)
    requires |u| == 5 && |v| == 5 && k <= 8 && 0 < burst < TWO32
    requires Xor(FiveBytes(u), FiveBytes(v)) == Pow2(k) * burst
    ensures Crc(a + u + b) != Crc(a + v + b)
  {
    var c := FeedBytes(Step, ONES, a);
    StepRegular();
    FeedFiveBytes(Step, c, u);
    FeedFiveBytes(Step, c, v);
    BurstDiffers(c, FiveBytes(u), FiveBytes(v), k, burst);
    DifferentFromHere(a, u, v, b, c);
  }

  lemma BurstDiffers(c: nat, x: nat, y: nat, k: nat, burst: nat)
    requires k <= 8 && 0 < burst < TWO32 && Xor(x, y) == Pow2(k) * burst
    ensures Iter<nat>(Step, 40, Xor(c, x)) != Iter<nat>(Step, 40, Xor(c, y))
  {
    StepRegular();
    XorShuffle(x, y, c);
    XorComm(c, x);
    XorComm(c, y);
    IterLinear<nat>(Step, Xor, 40, Xor(c, x), Xor(c, y));
    ByteFalls(Step, burst, k, 40 - k);
    StepsWord(40 - k, burst);
    XorSelf(Iter<nat>(Step, 40, Xor(c, x)));
  }

  // ---------------------------------------------------------------------------------------------
  // The program
  // ---------------------------------------------------------------------------------------------

  /** Bitwise complement of a word. */
  function Complement(c: u32): u32 {
    ONES - c
  }

  lemma ComplementIsXor(c: u32)
    ensures Complement(c) == Xor(c, ONES)
  {
    PowersOfTwo();
    XorOnes(c, ONES, 32);
  }

  predicate UpdatesAt(f: nat -> nat, c: nat) {
    f(c) == Update(c, POLYNOMIAL)
  }

  /** `f` is the update of the CRC register. */
  ghost predicate IsUpdate(f: nat -> nat) {
    forall c :: UpdatesAt(f, c)
  }

  /** Crc32Lookup and the two functions that use it. */
  class CrcTables {
    const lookup: array2<u32>

    ghost predicate Shaped()
    {
      lookup.Length0 == 8 && lookup.Length1 == 256
    }

    /** Table k holds its entries for the update `f` up to byte n. */
    ghost predicate Filled(f: nat -> nat, k: nat, n: nat)
      requires Shaped() && k < 8 && n <= 256
      reads lookup
    {
      forall i | 0 <= i < n :: lookup[k, i] == Entry(f, k, i)
    }

    ghost predicate FilledFor(f: nat -> nat)
      reads lookup
    {
      Shaped() && forall k | 0 <= k < 8 :: Filled(f, k, 256)
    }

    ghost predicate Valid()
      reads lookup
    {
      FilledFor(Step)
    }

    constructor ()
      ensures Valid() && fresh(lookup)
    {
      lookup := new u32[8, 256];
      new;
      InitCrc();
    }

    /** One entry of table 0: eight updates of the byte. */
    static method FirstEntry(ghost f: nat -> nat, i: byte) returns (crc: u32)
      requires IsUpdate(f)
      ensures crc == Entry(f, 0, i)
    {
      crc := i;
      for j := 0 to 8
        invariant Iter<nat>(f, 8 - j, crc) == Iter<nat>(f, 8, i)
      {
        assert UpdatesAt(f, crc);
        crc := Xor32(crc / 2, crc % 2 * POLYNOMIAL);
      }
    }

    /** init_crc. */
    method InitCrc()
      requires Shaped()
      modifies lookup
      ensures Valid()
    {
      assert IsUpdate(Step) by {
        assert forall c: nat :: UpdatesAt(Step, c);
      }
      StepRegular();
      FillFirst(Step);
      FillRest(Step);
    }

    /** The first loop of init_crc. */
    method FillFirst(ghost f: nat -> nat)
      requires Shaped() && IsUpdate(f)
      modifies lookup
      ensures Filled(f, 0, 256)
    {
      for i := 0 to 256
        invariant Filled(f, 0, i)
      {
        var crc := FirstEntry(f, i);
        lookup[0, i] := crc;
      }
    }

    /** Tables 1 to 7 hold their entries up to byte n. */
    ghost predicate FilledRest(f: nat -> nat, n: nat)
      requires Shaped() && n <= 256
      reads lookup
    {
      forall k, i | 1 <= k < 8 && 0 <= i < n :: lookup[k, i] == Entry(f, k, i)
    }

    /** The second loop of init_crc: tables 1 to 7 from table 0. */
    method FillRest(ghost f: nat -> nat)
      requires Shaped() && Regular(f) && Filled(f, 0, 256)
      modifies lookup
      ensures FilledFor(f)
    {
      for i := 0 to 256
        invariant Filled(f, 0, 256) && FilledRest(f, i)
      {
        FillColumn(f, i);
      }
      forall k | 0 <= k < 8
        ensures Filled(f, k, 256)
      {
      }
    }

    /** The body of that loop. */
    method FillColumn(ghost f: nat -> nat, i: byte)
      requires Shaped() && Regular(f) && Filled(f, 0, 256)
      modifies lookup
      ensures forall k | 1 <= k < 8 :: lookup[k, i] == Entry(f, k, i)
      ensures forall k, j | 0 <= k < 8 && 0 <= j < 256 && (k == 0 || j != i) :: lookup[k, j] == old(lookup[k, j])
    {
      var t1 := NextEntry(f, lookup[0, i], 0, i);
      var t2 := NextEntry(f, t1, 1, i);
      var t3 := NextEntry(f, t2, 2, i);
      var t4 := NextEntry(f, t3, 3, i);
      var t5 := NextEntry(f, t4, 4, i);
      var t6 := NextEntry(f, t5, 5, i);
      var t7 := NextEntry(f, t6, 6, i);
      lookup[1, i] := t1;
      lookup[2, i] := t2;
      lookup[3, i] := t3;
      lookup[4, i] := t4;
      lookup[5, i] := t5;
      lookup[6, i] := t6;
      lookup[7, i] := t7;
    }

    /** The recurrence step, reading table 0. */
    method NextEntry(ghost f: nat -> nat, prev: u32, ghost k: nat, ghost i: nat) returns (crc: u32)
      requires Shaped() && Regular(f) && Filled(f, 0, 256) && prev == Entry(f, k, i)
      ensures crc == Entry(f, k + 1, i)
    {
      EntryStep(f, k, i);
      crc := Xor32(prev / 256, lookup[0, prev % 256]);
    }

    /** The slicing-by-8 step of newer_crc on the eight bytes `d`. */
    method Slice(ghost f: nat -> nat, crc: u32, d: seq<byte>) returns (r: u32)
      requires FilledFor(f) && Regular(f) && |d| == 8
      ensures r == FeedBytes(f, crc, d)
    {
      BytesOfWord(d[0], d[1], d[2], d[3]);
      BytesOfWord(d[4], d[5], d[6], d[7]);
      var w0: u32 := Word(d[0], d[1], d[2], d[3]);
      var one := Xor32(w0, crc);
      var two: u32 := Word(d[4], d[5], d[6], d[7]);
      WordBytes(one);
      var o0, o1, o2, o3 := one % 256, one / 256 % 256, one / 65536 % 256, one / 16777216;
      assert Word(o0, o1, o2, o3) == Xor(crc, w0) by {
        XorComm(w0, crc);
      }
      SliceStep(f, crc, d, o0, o1, o2, o3);
      r := SumLookups(f, o0, o1, o2, o3, two % 256, two / 256 % 256, two / 65536 % 256, two / 16777216);
    }

    method SumLookups(ghost f: nat -> nat, o0: byte, o1: byte, o2: byte, o3: byte,
                      d0: byte, d1: byte, d2: byte, d3: byte)
      returns (r: u32)
      requires FilledFor(f)
      ensures r == SumEight(Xor, Entry(f, 7, o0), Entry(f, 6, o1), Entry(f, 5, o2), Entry(f, 4, o3),
                            Entry(f, 3, d0), Entry(f, 2, d1), Entry(f, 1, d2), Entry(f, 0, d3))
    {
      assert Filled(f, 0, 256) && Filled(f, 1, 256) && Filled(f, 2, 256) && Filled(f, 3, 256);
      assert Filled(f, 4, 256) && Filled(f, 5, 256) && Filled(f, 6, 256) && Filled(f, 7, 256);
      var a := Xor32(lookup[7, o0], lookup[6, o1]);
      var b := Xor32(a, lookup[5, o2]);
      var c := Xor32(b, lookup[4, o3]);
      var d := Xor32(c, lookup[3, d0]);
      var e := Xor32(d, lookup[2, d1]);
      var g := Xor32(e, lookup[1, d2]);
      r := Xor32(g, lookup[0, d3]);
    }

    /** One byte of the tail loop. */
    method TailByte(ghost f: nat -> nat, crc: u32, b: byte) returns (r: u32)
      requires FilledFor(f) && Regular(f)
      ensures r == Iter<nat>(f, 8, Xor(crc, b))
    {
      TailStep(f, crc, b);
      assert Filled(f, 0, 256);
      r := Xor32(crc / 256, lookup[0, Xor32(crc % 256, b)]);
    }

    /** The first loop of newer_crc: eight bytes at a time. */
    method FeedBlocks(ghost f: nat -> nat, data: seq<byte>) returns (crc: u32, pos: nat)
      requires FilledFor(f) && Regular(f)
      ensures pos <= |data| && FeedBytes(f, crc, data[pos..]) == FeedBytes(f, ONES, data)
    {
      crc, pos := ONES, 0;
      ghost var left := data;
      while |data| - pos >= 8
        invariant pos <= |data| && left == data[pos..]
        invariant FeedBytes(f, crc, left) == FeedBytes(f, ONES, data)
      {
        var d := data[pos..pos + 8];
        ghost var rest := data[pos + 8..];
        assert left == d + rest;
        FeedConcat(f, crc, d, rest);
        crc := Slice(f, crc, d);
        pos, left := pos + 8, rest;
      }
    }

    /** The second loop of newer_crc: the remaining bytes. */
    method FeedTail(ghost f: nat -> nat, start: u32, data: seq<byte>) returns (crc: u32)
      requires FilledFor(f) && Regular(f)
      ensures crc == FeedBytes(f, start, data)
    {
      crc := start;
      var pos := 0;
      while pos < |data|
        invariant pos <= |data|
        invariant FeedBytes(f, crc, data[pos..]) == FeedBytes(f, start, data)
      {
        assert data[pos..][1..] == data[pos + 1..];
        crc := TailByte(f, crc, data[pos]);
        pos := pos + 1;
      }
    }

    /** newer_crc computes CRC-32. */
    method NewerCrc(data: seq<byte>) returns (crc: u32)
      requires Valid()
      ensures crc == Crc(data)
    {
      StepRegular();
      var pos;
      crc, pos := FeedBlocks(Step, data);
      crc := FeedTail(Step, crc, data[pos..]);
      ShiftIsFeed(ONES, data);
      ComplementIsXor(crc);
      crc := Complement(crc);
    }
  }
}
