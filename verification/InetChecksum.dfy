/** The Internet checksum of dp/lwip/inet_chksum.c: the three lwip_standard_chksum algorithms on a
    little-endian machine, inet_chksum_pbuf and in_pseudo, against one's-complement addition
    (section 2 of RFC 1071). */
module InetChecksum {
  import opened Words

  const TWO16: nat := 0x1_0000

  type u16 = x: int | 0 <= x < TWO16

  // ---------------------------------------------------------------------------------------------
  // The reference: one's-complement addition of 16-bit words
  // ---------------------------------------------------------------------------------------------

  /** 16-bit addition with end-around carry. */
  function OcAdd(a: u16, b: u16): u16 {
    if a + b >= TWO16 then a + b - TWO16 + 1 else a + b
  }

  /** Two bytes as a little-endian machine reads them. */
  function Pair(lo: byte, hi: byte): u16 {
    lo as int + 256 * (hi as int)
  }

  /** The sum of the 16-bit words of a message; an odd last byte is padded with zero. */
  function OcSum(data: seq<byte>): u16
    decreases |data|
  {
    if data == [] then 0
    else if |data| == 1 then Pair(data[0], 0)
    else OcAdd(Pair(data[0], data[1]), OcSum(data[2..]))
  }

  /** The checksum field: the complement of the sum. */
  function Checksum(data: seq<byte>): u16 {
    0xFFFF - OcSum(data)
  }

  // ---------------------------------------------------------------------------------------------
  // The algebra: a commutative monoid with byte swapping as an involution
  // ---------------------------------------------------------------------------------------------

  lemma OcAssoc(a: u16, b: u16, c: u16)
    ensures OcAdd(OcAdd(a, b), c) == OcAdd(a, OcAdd(b, c))
  {
  }

  /** Take 256 off and add one, until only the low byte is left, which moves up. */
  function SwapDown(v: nat): nat {
    if v < 256 then 256 * v else 1 + SwapDown(v - 256)
  }

  lemma {:induction false} SwapDownOf(lo: nat, hi: nat)
    requires lo < 256
    ensures SwapDown(lo + 256 * hi) == hi + 256 * lo
    decreases hi
  {
    if hi > 0 {
      SwapDownOf(lo, hi - 1);
    }
  }

  /** SWAP_BYTES_IN_WORD, and htons on a little-endian machine. */
  function Swap(v: u16): u16 {
    SwapMeaning(v);
    SwapDown(v)
  }

  lemma SwapMeaning(v: u16)
    ensures SwapDown(v) == v % 256 * 256 + v / 256 < TWO16
  {
    SwapDownOf(v % 256, v / 256);
    AsPair(v);
  }

  lemma SwapOf(lo: byte, hi: byte)
    ensures Swap(Pair(lo, hi)) == Pair(hi, lo)
  {
    SwapDownOf(lo, hi);
  }

  lemma AsPair(v: u16)
    ensures v / 256 < 256 && v == Pair(v % 256, v / 256)
  {
  }

  lemma SwapTwice(v: u16)
    ensures Swap(Swap(v)) == v
  {
    AsPair(v);
    SwapOf(v % 256, v / 256);
    SwapOf(v / 256, v % 256);
  }

  /** End-around carry does not care about byte order. */
  lemma SwapAdd(a: u16, b: u16)
    ensures Swap(OcAdd(a, b)) == OcAdd(Swap(a), Swap(b))
  {
    AsPair(a);
    AsPair(b);
    SwapAddPairs(a % 256, a / 256, b % 256, b / 256);
  }

  lemma SwapAddPairs(al: byte, ah: byte, bl: byte, bh: byte)
    ensures Swap(OcAdd(Pair(al, ah), Pair(bl, bh))) == OcAdd(Pair(ah, al), Pair(bh, bl)) 
    ensures Swap(Pair(al, ah)) == Pair(ah, al) && Swap(Pair(bl, bh)) == Pair(bh, bl)
  {
    var l, h := al + bl as int, ah + bh as int;
    SwapOf(al, ah);
    SwapOf(bl, bh);
    if l < 256 && h < 256 {
      SwapOf(l, h);
    } else if l >= 256 && h + 1 < 256 {
      SwapOf(l - 256, h + 1);
    } else if l < 255 && h >= 256 {
      SwapOf(l + 1, h - 256);
    } else if l == 255 && h >= 256 {
      if h - 256 + 1 < 256 {
        SwapOf(0, h - 255);
      }
    } else if l >= 256 && h + 1 >= 256 {
      if h == 255 {
        SwapOf(l - 255, 0);
      } else {
        SwapOf(l - 255, h - 255);
      }
    }
  }

  lemma {:induction false} SumEven(a: seq<byte>, b: seq<byte>)
    requires |a| % 2 == 0
    ensures OcSum(a + b) == OcAdd(OcSum(a), OcSum(b))
    decreases |a|
  {
    if a == [] {
      assert a + b == b;
    } else {
      assert (a + b)[2..] == a[2..] + b;
      assert (a + b)[0] == a[0] && (a + b)[1] == a[1];
      SumEven(a[2..], b);
      OcAssoc(Pair(a[0], a[1]), OcSum(a[2..]), OcSum(b));
    }
  }

  /** One byte in front swaps the sum of everything behind it. */
  lemma {:induction false} SumAfterByte(x: byte, b: seq<byte>)
    ensures OcSum([x] + b) == OcAdd(Pair(x, 0), Swap(OcSum(b)))
    decreases |b|
  {
    var r := [x] + b;
    if b == [] {
      assert r == [x];
    } else if |b| == 1 {
      assert r[2..] == [];
      SwapOf(b[0], 0);
    } else {
      assert r[2..] == [b[1]] + b[2..];
      SumAfterByte(b[1], b[2..]);
      var t := OcSum(b[2..]);
      SwapAdd(Pair(b[0], b[1]), t);
      SwapOf(b[0], b[1]);
      AfterByteStep(x, b[0], b[1], Swap(t));
    }
  }

  lemma AfterByteStep(x: byte, b0: byte, b1: byte, t: u16)
    ensures OcAdd(Pair(x, b0), OcAdd(Pair(b1, 0), t)) == OcAdd(Pair(x, 0), OcAdd(Pair(b1, b0), t))
  {
    OcAssoc(Pair(x, b0), Pair(b1, 0), t);
    OcAssoc(Pair(x, 0), Pair(b1, b0), t);
    assert Pair(x, b0) + Pair(b1, 0) == Pair(x, 0) + Pair(b1, b0);
  }

  lemma {:induction false} SumOdd(a: seq<byte>, b: seq<byte>)
    requires |a| % 2 == 1
    ensures OcSum(a + b) == OcAdd(OcSum(a), Swap(OcSum(b)))
    decreases |a|
  {
    if |a| == 1 {
      assert a == [a[0]];
      SumAfterByte(a[0], b);
    } else {
      assert (a + b)[2..] == a[2..] + b;
      assert (a + b)[0] == a[0] && (a + b)[1] == a[1];
      SumOdd(a[2..], b);
      OcAssoc(Pair(a[0], a[1]), OcSum(a[2..]), Swap(OcSum(b)));
    }
  }

  // ---------------------------------------------------------------------------------------------
  // Wide accumulators
  // ---------------------------------------------------------------------------------------------

  /** The 16-bit one's-complement value of a wide sum. */
  function Canon(n: nat): u16 {
    if n < TWO16 then n else Canon(n - 0xFFFF)
  }

  lemma {:induction false} CanonAdd(a: nat, b: nat)
    ensures Canon(a + b) == OcAdd(Canon(a), Canon(b))
    decreases a + b
  {
    if a >= TWO16 {
      CanonAdd(a - 0xFFFF, b);
    } else if b >= TWO16 {
      CanonAdd(a, b - 0xFFFF);
    }
  }

  lemma {:induction false} CanonWrap(n: nat, k: nat)
    requires n > 0
    ensures Canon(n + 0xFFFF * k) == Canon(n)
    decreases k
  {
    if k > 0 {
      CanonWrap(n, k - 1);
    }
  }

  /** FOLD_U32T. */
  function Fold(s: nat): nat {
    s / TWO16 + s % TWO16
  }

  lemma FoldCanon(s: nat)
    ensures Canon(Fold(s)) == Canon(s)
    ensures s < TWO32 ==> Fold(s) <= 0x1FFFE
    ensures s <= 0x1FFFE ==> Fold(s) <= 0xFFFF
  {
    if s > 0 {
      assert s == Fold(s) + 0xFFFF * (s / TWO16);
      CanonWrap(Fold(s), s / TWO16);
    }
  }

  lemma FoldTwice(s: u32)
    ensures Fold(Fold(s)) == Canon(s)
  {
    FoldCanon(s);
    FoldCanon(Fold(s));
  }

  // ---------------------------------------------------------------------------------------------
  // The algorithms.  Each returns the one's-complement sum in host byte order.
  // ---------------------------------------------------------------------------------------------

  /** `next` is `done` and one more word. */
  ghost predicate OneMore(done: seq<byte>, next: seq<byte>, lo: byte, hi: byte) {
    |done| % 2 == 0 && next == done + [lo, hi]
  }

  lemma SumSnoc(done: seq<byte>, next: seq<byte>, lo: byte, hi: byte)
    requires OneMore(done, next, lo, hi)
    ensures OcSum(next) == OcAdd(OcSum(done), Pair(lo, hi))
  {
    var w := [lo, hi];
    SumEven(done, w);
    assert w[2..] == [];
  }

  lemma SumLast(data: seq<byte>)
    requires |data| % 2 == 1
    ensures OcSum(data) == OcAdd(OcSum(data[..|data| - 1]), Pair(data[|data| - 1], 0))
  {
    var n := |data| - 1;
    SumEven(data[..n], [data[n]]);
    assert data == data[..n] + [data[n]];
  }

  /** Version 1 sums the words in network byte order. */
  lemma NetworkStep(acc: nat, s: u16, lo: byte, hi: byte)
    requires Canon(acc) == Swap(s)
    ensures Canon(acc + Pair(hi, lo)) == Swap(OcAdd(s, Pair(lo, hi)))
  {
    CanonAdd(acc, Pair(hi, lo));
    SwapAdd(s, Pair(lo, hi));
    SwapOf(lo, hi);
  }

  ghost predicate Network(acc: nat, done: seq<byte>) {
    Canon(acc) == Swap(OcSum(done))
  }

  lemma NetworkSnoc(acc: nat, done: seq<byte>, next: seq<byte>, lo: byte, hi: byte)
    requires OneMore(done, next, lo, hi) && Network(acc, done)
    ensures Network(acc + Pair(hi, lo), next)
  {
    SumSnoc(done, next, lo, hi);
    NetworkStep(acc, OcSum(done), lo, hi);
  }

  lemma NetworkLast(acc: nat, done: seq<byte>, data: seq<byte>)
    requires |data| % 2 == 1 && done == data[..|data| - 1] && Network(acc, done)
    ensures Network(acc + Pair(0, data[|data| - 1]), data)
  {
    SumLast(data);
    NetworkStep(acc, OcSum(done), data[|data| - 1], 0);
  }

  /** The loop of version 1. */
  method SumNetwork(data: seq<byte>) returns (acc: nat)
    ensures Network(acc, data) && 2 * acc <= 0xFFFF * (|data| + 1)
  {
    acc := 0;
    var pos := 0;
    ghost var done := [];
    while |data| - pos > 1
      invariant pos % 2 == 0 && pos <= |data| && done == data[..pos] && Network(acc, done)
      invariant 2 * acc <= 0xFFFF * pos
    {
      ghost var next := data[..pos + 2];
      assert OneMore(done, next, data[pos], data[pos + 1]);
      NetworkSnoc(acc, done, next, data[pos], data[pos + 1]);
      acc := acc + Pair(data[pos + 1], data[pos]);
      pos := pos + 2;
      done := next;
    }
    if |data| - pos > 0 {
      NetworkLast(acc, done, data);
      acc := acc + Pair(0, data[pos]);
    } else {
      assert done == data;
    }
  }

  /** lwip_standard_chksum, version 1; len is a u16_t. */
  method Chksum1(data: seq<byte>) returns (r: u16)
    requires |data| < TWO16
    ensures r == OcSum(data)
  {
    var acc := SumNetwork(data);
    FoldTwice(acc);
    FoldCanon(acc);
    acc := Fold(acc);
    if acc >= TWO16 {
      acc := Fold(acc);
    }
    SwapTwice(OcSum(data));
    r := Swap(acc);
  }

  /** The even-aligned rest of the data after an optional leading byte. */
  function Rest(data: seq<byte>, odd: bool): seq<byte> {
    if odd && data != [] then data[1..] else data
  }

  function Leading(data: seq<byte>, odd: bool): byte {
    if odd && data != [] then data[0] else 0
  }

  /** The end bytes gathered in t: a trailing one in the low half, a leading one in the high half. */
  function EndBytes(rest: seq<byte>, leading: byte): u16 {
    Pair(if |rest| % 2 == 1 then rest[|rest| - 1] else 0, leading)
  }

  /** The whole words of the rest. */
  function Middle(rest: seq<byte>): seq<byte> {
    if |rest| % 2 == 1 then rest[..|rest| - 1] else rest
  }

  lemma EndsJoin(m: u16, lo: byte, hi: byte)
    ensures OcAdd(m, Pair(lo, hi)) == OcAdd(OcAdd(m, Pair(lo, 0)), Pair(0, hi))
  {
    OcAssoc(m, Pair(lo, 0), Pair(0, hi));
  }

  /** The whole words of the rest plus the end bytes give the sum of the rest and the leading byte. */
  lemma MiddleAndEnds(rest: seq<byte>, leading: byte)
    ensures OcAdd(OcSum(Middle(rest)), EndBytes(rest, leading)) == OcAdd(OcSum(rest), Pair(0, leading))
  {
    if |rest| % 2 == 1 {
      SumLast(rest);
      EndsJoin(OcSum(Middle(rest)), rest[|rest| - 1], leading);
    }
  }

  /** Swapping if the start was odd puts the leading byte back in place. */
  lemma AlignedSum(data: seq<byte>, odd: bool)
    ensures var v := OcAdd(OcSum(Rest(data, odd)), Pair(0, Leading(data, odd)));
            (if odd then Swap(v) else v) == OcSum(data)
  {
    if odd && data != [] {
      var x, rest := data[0], data[1..];
      assert data == [x] + rest;
      SumAfterByte(x, rest);
      SwapAdd(OcSum(rest), Pair(0, x));
      SwapOf(0, x);
    }
  }

  /** The common end of versions 2 and 3: add the end bytes, fold twice, swap if the start was odd. */
  method FoldAndSwap(sum: u32, data: seq<byte>, odd: bool) returns (r: u16)
    requires sum <= TWO32 - TWO16
    requires Canon(sum) == OcSum(Middle(Rest(data, odd)))
    ensures r == OcSum(data)
  {
    var rest := Rest(data, odd);
    var t := EndBytes(rest, Leading(data, odd));
    CanonAdd(sum, t);
    MiddleAndEnds(rest, Leading(data, odd));
    AlignedSum(data, odd);
    var s: u32 := sum + t;
    FoldTwice(s);
    s := Fold(s);
    s := Fold(s);
    r := if odd then Swap(s) else s;
  }

  lemma AddWord(sum: nat, done: seq<byte>, next: seq<byte>, lo: byte, hi: byte)
    requires OneMore(done, next, lo, hi) && Canon(sum) == OcSum(done)
    ensures Canon(sum + Pair(lo, hi)) == OcSum(next)
  {
    SumSnoc(done, next, lo, hi);
    CanonAdd(sum, Pair(lo, hi));
  }

  /** The loop over 16-bit words of versions 2 and 3. */
  method SumWords(rest: seq<byte>, first: nat, start: nat) returns (sum: nat)
    requires start % 2 == 0 && start <= |rest| && Canon(first) == OcSum(rest[..start])
    ensures Canon(sum) == OcSum(Middle(rest)) && 2 * sum <= 2 * first + 0xFFFF * (|rest| - start)
  {
    sum := first;
    var pos := start;
    ghost var done := rest[..start];
    while |rest| - pos > 1
      invariant pos % 2 == 0 && start <= pos <= |rest| && done == rest[..pos] && Canon(sum) == OcSum(done)
      invariant 2 * sum <= 2 * first + 0xFFFF * (pos - start)
    {
      ghost var next := rest[..pos + 2];
      NextWord(rest, pos, done, next);
      AddWord(sum, done, next, rest[pos], rest[pos + 1]);
      sum := sum + Pair(rest[pos], rest[pos + 1]);
      pos := pos + 2;
      done := next;
    }
    AllWords(rest, pos, done);
  }

  lemma NextWord(rest: seq<byte>, pos: nat, done: seq<byte>, next: seq<byte>)
    requires pos % 2 == 0 && pos + 1 < |rest| && done == rest[..pos] && next == rest[..pos + 2]
    ensures OneMore(done, next, rest[pos], rest[pos + 1])
  {
  }

  lemma AllWords(rest: seq<byte>, pos: nat, done: seq<byte>)
    requires pos % 2 == 0 && pos <= |rest| <= pos + 1 && done == rest[..pos]
    ensures done == Middle(rest)
  {
  }

  /** lwip_standard_chksum, version 2, on data at address `addr`. */
  method Chksum2(addr: nat, data: seq<byte>) returns (r: u16)
    requires |data| <= 0x20000
    ensures r == OcSum(data)
  {
    var odd := addr % 2 == 1;
    var sum := SumWords(Rest(data, odd), 0, 0);
    r := FoldAndSwap(sum, data, odd);
  }

  // ---------------------------------------------------------------------------------------------
  // Version 3: 32-bit words with the carry added back
  // ---------------------------------------------------------------------------------------------

  /** sum + x on u32_t, plus one when the unsigned result wrapped. */
  function AddCarry(sum: u32, x: u32): u32 {
    var tmp: u32 := if sum + x < TWO32 then sum + x else sum + x - TWO32;
    if tmp < sum then tmp + 1 else tmp
  }

  lemma AddCarryCanon(sum: u32, x: u32)
    ensures Canon(AddCarry(sum, x)) == OcAdd(Canon(sum), Canon(x))
  {
    CanonAdd(sum, x);
    if sum + x >= TWO32 {
      var r := sum + x - 0xFFFFFFFF;
      assert sum + x == r + 0xFFFF * 65537;
      CanonWrap(r, 65537);
    }
  }

  /** Two 16-bit words read as one 32-bit word. */
  function Join(lo: u16, hi: u16): u32 {
    lo as int + TWO16 * hi
  }

  lemma JoinCanon(lo: u16, hi: u16)
    ensures Canon(Join(lo, hi)) == OcAdd(lo, hi)
  {
    CanonAdd(lo, hi);
    var n: nat := lo + hi as nat;
    assert Join(lo, hi) == n + 0xFFFF * hi;
    if n > 0 {
      CanonWrap(n, hi);
    }
  }

  lemma AddLong(sum: u32, s: u16, lo: u16, hi: u16)
    requires Canon(sum) == s
    ensures Canon(AddCarry(sum, Join(lo, hi))) == OcAdd(OcAdd(s, lo), hi)
  {
    JoinCanon(lo, hi);
    AddCarryCanon(sum, Join(lo, hi));
    OcAssoc(s, lo, hi);
  }

  /** Four bytes read as a word. */
  function Long(data: seq<byte>, i: nat): u32
    requires i + 4 <= |data|
  {
    Join(Pair(data[i], data[i + 1]), Pair(data[i + 2], data[i + 3]))
  }

  /** The sum of four bytes more. */
  lemma TwoMore(data: seq<byte>, i: nat, done: seq<byte>, next: seq<byte>)
    requires i % 2 == 0 && i + 4 <= |data| && done == data[..i] && next == data[..i + 4]
    ensures OcSum(next) == OcAdd(OcAdd(OcSum(done), Pair(data[i], data[i + 1])), Pair(data[i + 2], data[i + 3]))
  {
    var mid := data[..i + 2];
    assert OneMore(done, mid, data[i], data[i + 1]);
    assert OneMore(mid, next, data[i + 2], data[i + 3]);
    SumSnoc(done, mid, data[i], data[i + 1]);
    SumSnoc(mid, next, data[i + 2], data[i + 3]);
  }

  /** The unrolled loop of version 3. */
  method SumLongs(rest: seq<byte>, first: u32, start: nat) returns (sum: u32, pos: nat)
    requires start % 2 == 0 && start <= |rest| && Canon(first) == OcSum(rest[..start])
    ensures pos % 2 == 0 && pos <= |rest| <= pos + 7 && Canon(sum) == OcSum(rest[..pos])
  {
    sum, pos := first, start;
    ghost var done := rest[..start];
    while |rest| - pos > 7
      invariant pos % 2 == 0 && pos <= |rest| && done == rest[..pos] && Canon(sum) == OcSum(done)
    {
      ghost var half, next := rest[..pos + 4], rest[..pos + 8];
      TwoMore(rest, pos, done, half);
      AddLong(sum, OcSum(done), Pair(rest[pos], rest[pos + 1]), Pair(rest[pos + 2], rest[pos + 3]));
      sum := AddCarry(sum, Long(rest, pos));
      TwoMore(rest, pos + 4, half, next);
      AddLong(sum, OcSum(half), Pair(rest[pos + 4], rest[pos + 5]), Pair(rest[pos + 6], rest[pos + 7]));
      sum := AddCarry(sum, Long(rest, pos + 4));
      pos := pos + 8;
      done := next;
    }
  }

  /** lwip_standard_chksum, version 3, on data at address `addr`; no limit on the length. */
  method Chksum3(addr: nat, data: seq<byte>) returns (r: u16)
    ensures r == OcSum(data)
  {
    var odd := addr % 2 == 1;
    var rest := Rest(data, odd);
    var sum: u32 := 0;
    var pos := 0;
    if (addr + |data| - |rest|) % 4 != 0 && |rest| > 1 {
      assert OneMore([], rest[..2], rest[0], rest[1]);
      AddWord(0, [], rest[..2], rest[0], rest[1]);
      sum := Pair(rest[0], rest[1]);
      pos := 2;
    }
    sum, pos := SumLongs(rest, sum, pos);
    FoldCanon(sum);
    var total := SumWords(rest, Fold(sum), pos);
    r := FoldAndSwap(total, data, odd);
  }

  // ---------------------------------------------------------------------------------------------
  // A chain of buffers
  // ---------------------------------------------------------------------------------------------

  /** A struct pbuf: where its payload lies and what it is. */
  datatype Pbuf = Pbuf(addr: nat, payload: seq<byte>)

  function Concat(chain: seq<Pbuf>): seq<byte>
    decreases |chain|
  {
    if chain == [] then [] else Concat(chain[..|chain| - 1]) + chain[|chain| - 1].payload
  }

  /** The accumulator holds the sum of the bytes so far, swapped if their number is odd. */
  ghost predicate Tracks(acc: u16, done: seq<byte>) {
    acc == if |done| % 2 == 1 then Swap(OcSum(done)) else OcSum(done)
  }

  lemma FoldPair(a: u16, b: u16)
    ensures Fold(a + b) == OcAdd(a, b)
  {
    FoldCanon(a + b);
    CanonAdd(a, b);
  }

  lemma Parity(n: nat, m: nat)
    ensures ((n + m) % 2 == 1) == ((n % 2 == 1) != (m % 2 == 1))
  {
  }

  lemma SwapIfOdd(n: nat, m: nat, a: u16, s: u16)
    requires a == if n % 2 == 1 then Swap(s) else s
    ensures (if m % 2 == 1 then Swap(a) else a) == if (n + m) % 2 == 1 then Swap(s) else s
  {
    Parity(n, m);
    SwapTwice(s);
  }

  lemma ChainValues(n: nat, m: nat, acc: u16, s: u16, v: u16, t: u16)
    requires acc == if n % 2 == 1 then Swap(s) else s
    requires t == if n % 2 == 1 then OcAdd(s, Swap(v)) else OcAdd(s, v)
    ensures var a := OcAdd(acc, v);
            (if m % 2 == 1 then Swap(a) else a) == if (n + m) % 2 == 1 then Swap(t) else t
  {
    if n % 2 == 1 {
      SwapAdd(s, Swap(v));
      SwapTwice(v);
    }
    SwapIfOdd(n, m, OcAdd(acc, v), t);
  }

  /** One buffer of the chain. */
  lemma ChainNext(acc: u16, done: seq<byte>, p: seq<byte>, all: seq<byte>)
    requires Tracks(acc, done) && all == done + p
    ensures var a := OcAdd(acc, OcSum(p));
            Tracks(if |p| % 2 == 1 then Swap(a) else a, all)
  {
    if |done| % 2 == 1 {
      SumOdd(done, p);
    } else {
      SumEven(done, p);
    }
    ChainValues(|done|, |p|, acc, OcSum(done), OcSum(p), OcSum(all));
  }

  /** The loop body of inet_chksum_pbuf. */
  method AddPbuf(acc: u16, q: Pbuf, ghost done: seq<byte>) returns (r: u16)
    requires |q.payload| < TWO16 && Tracks(acc, done)
    ensures Tracks(r, done + q.payload)
  {
    ChainNext(acc, done, q.payload, done + q.payload);
    var sum := Chksum2(q.addr, q.payload);
    FoldPair(acc, sum);
    r := Fold(acc + sum);
    if |q.payload| % 2 == 1 {
      r := Swap(r);
    }
  }

  /** inet_chksum_pbuf: however the data is split and aligned, the result is the checksum of the
      concatenation.  The length of a buffer is a u16_t. */
  method InetChksumPbuf(chain: seq<Pbuf>) returns (r: u16)
    requires forall i | 0 <= i < |chain| :: |chain[i].payload| < TWO16
    ensures r == Checksum(Concat(chain))
  {
    var acc: u16 := 0;
    var swapped := 0;
    for i := 0 to |chain|
      invariant Tracks(acc, Concat(chain[..i]))
      invariant swapped == |Concat(chain[..i])| % 2
    {
      assert chain[..i + 1][..i] == chain[..i];
      acc := AddPbuf(acc, chain[i], Concat(chain[..i]));
      if |chain[i].payload| % 2 != 0 {
        swapped := 1 - swapped;
      }
    }
    assert chain[..|chain|] == chain;
    SwapTwice(OcSum(Concat(chain)));
    if swapped == 1 {
      acc := Swap(acc);
    }
    r := 0xFFFF - acc;
  }

  /** A receiver that sums a message carrying its own checksum gets all ones. */
  lemma ChecksumVerifies(a: seq<byte>, b: seq<byte>)
    requires |a| % 2 == 0
    ensures var c := Checksum(a + [0, 0] + b);
            c / 256 < 256 && OcSum(a + [c % 256, c / 256] + b) == 0xFFFF
  {
    var c := Checksum(a + [0, 0] + b);
    AsPair(c);
    FieldSum(a, 0, 0, b);
    FieldSum(a, c % 256, c / 256, b);
    OcComplement(OcSum(a), OcSum(b));
  }

  lemma FieldSum(a: seq<byte>, x: byte, y: byte, b: seq<byte>)
    requires |a| % 2 == 0
    ensures OcSum(a + [x, y] + b) == OcAdd(OcAdd(OcSum(a), Pair(x, y)), OcSum(b))
  {
    SumEven(a + [x, y], b);
    SumEven(a, [x, y]);
    assert [x, y][2..] == [];
  }

  lemma OcComplement(a: u16, b: u16)
    ensures OcAdd(OcAdd(a, 0xFFFF - OcAdd(OcAdd(a, 0), b)), b) == 0xFFFF
  {
  }

  /** in_pseudo: two 32-bit additions with the carry rippling into the next, then a fold. */
  method PseudoHeaderSum(src: u32, dst: u32, len: u32) returns (r: u16)
    ensures r == Canon(src + dst + len)
  {
    var s1: u32 := (src + dst) % TWO32;
    var c1 := (src + dst) / TWO32;
    var s2: u32 := (s1 + len + c1) % TWO32;
    var c2 := (s1 + len + c1) / TWO32;
    var s3: u32 := s2 + c2;
    assert src + dst + len == s3 + 0xFFFFFFFF * (c1 + c2);
    if s3 > 0 {
      CanonWrap(s3, 65537 * (c1 + c2));
    }
    FoldCanon(s3);
    var f := Fold(s3);
    if f > 0xFFFF {
      f := f - 0xFFFF;
    }
    r := f;
  }

  /** A number in network byte order. */
  function NetworkBytes(n: nat): (b: seq<byte>)
    requires n < TWO32
    ensures |b| == 4
  {
    [n / 16777216, n / 65536 % 256, n / 256 % 256, n % 256]
  }

  /** The pseudo-header of a segment. */
  function PseudoHeader(src: seq<byte>, dst: seq<byte>, proto: byte, len: u16): seq<byte> {
    src + dst + [0, proto, len / 256, len % 256]
  }

  lemma LongCanon(data: seq<byte>)
    requires |data| == 4
    ensures Canon(Long(data, 0)) == OcSum(data)
  {
    JoinCanon(Pair(data[0], data[1]), Pair(data[2], data[3]));
    assert data[2..] == [data[2], data[3]] && data[2..][2..] == [];
    assert OcSum(data[2..]) == OcAdd(Pair(data[2], data[3]), 0);
  }

  lemma SwappedPair(v: u16)
    ensures v / 256 < 256 && Pair(v / 256, v % 256) == Swap(v)
  {
    AsPair(v);
    SwapOf(v % 256, v / 256);
  }

  lemma NetworkWords(h: byte, m: u16)
    ensures m / 256 < 256 && OcSum([0, h, m / 256, m % 256]) == Swap(OcAdd(h, m))
  {
    SwappedPair(m);
    SwapOf(h, 0);
    TwoWords(0, h, m / 256, m % 256);
    SwapAdd(h, m);
  }

  /** Protocol and length can be added before they are put in network byte order. */
  lemma ProtoAndLength(proto: byte, len: u16)
    ensures OcSum(NetworkBytes(proto + len)) == OcSum([0, proto, len / 256, len % 256])
  {
    NetworkWords(proto, len);
    if proto + len < TWO16 {
      NetworkWords(0, proto + len);
      SmallBytes(0, proto + len);
    } else {
      NetworkWords(1, proto + len - TWO16);
      SmallBytes(1, proto + len - TWO16);
    }
  }

  lemma SmallBytes(h: byte, m: u16)
    requires h <= 1
    ensures m / 256 < 256 && NetworkBytes(TWO16 * h + m) == [0, h, m / 256, m % 256]
  {
  }

  lemma TwoWords(a: byte, b: byte, c: byte, d: byte)
    ensures OcSum([a, b, c, d]) == OcAdd(Pair(a, b), Pair(c, d))
  {
    var s := [a, b, c, d];
    assert s[2..] == [c, d] && s[2..][2..] == [];
    assert OcSum(s[2..]) == OcAdd(Pair(c, d), 0);
  }

  lemma HeaderSum(src: seq<byte>, dst: seq<byte>, rest: seq<byte>)
    requires |src| == 4 && |dst| == 4
    ensures OcSum(src + dst + rest) == OcAdd(OcAdd(OcSum(src), OcSum(dst)), OcSum(rest))
  {
    SumEven(src + dst, rest);
    SumEven(src, dst);
  }

  /** inet_chksum_pseudo: the sum of the pseudo-header, for addresses in network byte order. */
  method InetChksumPseudo(src: seq<byte>, dst: seq<byte>, proto: byte, len: u16) returns (r: u16)
    requires |src| == 4 && |dst| == 4
    ensures r == OcSum(PseudoHeader(src, dst, proto, len))
  {
    var tail := NetworkBytes(proto + len);
    r := PseudoHeaderSum(Long(src, 0), Long(dst, 0), Long(tail, 0));
    LongCanon(src);
    LongCanon(dst);
    LongCanon(tail);
    CanonAdd(Long(src, 0) + Long(dst, 0), Long(tail, 0));
    CanonAdd(Long(src, 0), Long(dst, 0));
    ProtoAndLength(proto, len);
    HeaderSum(src, dst, [0, proto, len / 256, len % 256]);
  }
}
