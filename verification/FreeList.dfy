/** The extent allocator of dp/core/blk_freelist.c: a linked list of free extents, kept sorted and
    coalesced.  The list is a sequence here; positions in it stand for the list pointers.

    `Free(list, b)` says that block b is free; each operation is proved to change it by exactly the
    requested range, and a list in canonical form is determined by it (`CanonicalUnique`). */
module FreeLists {

  datatype Extent = Extent(start: int, count: int)
  {
    function End(): int {
      start + count
    }
    predicate Has(b: int) {
      start <= b < start + count
    }
  }

  predicate Free(list: seq<Extent>, b: int) {
    list != [] && (list[0].Has(b) || Free(list[1..], b))
  }

  /** Sorted, no empty extent, and a gap between neighbours. */
  predicate Canonical(list: seq<Extent>) {
    list != [] ==>
      && list[0].count > 0
      && (|list| > 1 ==> list[0].End() < list[1].start)
      && Canonical(list[1..])
  }

  /** Everything free in a canonical list lies at or after its first extent. */
  lemma {:induction false} FreeFrom(list: seq<Extent>, b: int)
    requires Canonical(list) && Free(list, b)
    ensures list[0].start <= b
    decreases |list|
  {
    if !list[0].Has(b) {
      FreeFrom(list[1..], b);
    }
  }

  /** The same free blocks, the same list. */
  lemma {:induction false} CanonicalUnique(a: seq<Extent>, b: seq<Extent>)
    requires Canonical(a) && Canonical(b)
    requires forall k :: Free(a, k) <==> Free(b, k)
    ensures a == b
    decreases |a|
  {
    if a == [] {
      if b != [] {
        assert Free(b, b[0].start);
        assert false;
      }
    } else if b == [] {
      assert Free(a, a[0].start);
      assert false;
    } else {
      SameHead(a, b);
      forall k
        ensures Free(a[1..], k) <==> Free(b[1..], k)
      {
        assert Free(a, k) <==> Free(b, k);
        TailAfter(a, k);
        TailAfter(b, k);
      }
      CanonicalUnique(a[1..], b[1..]);
      assert a == [a[0]] + a[1..] && b == [b[0]] + b[1..];
    }
  }

  /** What the tail holds lies beyond the head and the gap. */
  lemma TailAfter(a: seq<Extent>, k: int)
    requires Canonical(a) && a != []
    ensures Free(a[1..], k) ==> a[0].End() < k
  {
    if Free(a[1..], k) {
      FreeFrom(a[1..], k);
    }
  }

  lemma SameHead(a: seq<Extent>, b: seq<Extent>)
    requires Canonical(a) && Canonical(b) && a != [] && b != []
    requires forall k :: Free(a, k) <==> Free(b, k)
    ensures a[0] == b[0]
  {
    assert Free(a, a[0].start) && Free(b, b[0].start);
    FreeFrom(b, a[0].start);
    FreeFrom(a, b[0].start);
    HeadEnds(a, b);
    HeadEnds(b, a);
  }

  lemma HeadEnds(a: seq<Extent>, b: seq<Extent>)
    requires Canonical(a) && Canonical(b) && a != [] && b != [] && a[0].start == b[0].start
    requires forall k :: Free(a, k) <==> Free(b, k)
    ensures b[0].End() <= a[0].End()
  {
    if b[0].End() > a[0].End() {
      assert Free(b, a[0].End());
      TailAfter(a, a[0].End());
      assert false;
    }
  }

  // ---------------------------------------------------------------------------------------------
  // Lists put together from parts
  // ---------------------------------------------------------------------------------------------

  predicate Separated(a: seq<Extent>, b: seq<Extent>) {
    a != [] && b != [] ==> a[|a| - 1].End() < b[0].start
  }

  lemma {:induction false} CanonicalAppend(a: seq<Extent>, b: seq<Extent>, ab: seq<Extent>)
    requires ab == a + b
    ensures Canonical(ab) <==> Canonical(a) && Canonical(b) && Separated(a, b)
    decreases |a|
  {
    if a == [] {
      assert ab == b;
    } else {
      assert ab[1..] == a[1..] + b;
      CanonicalAppend(a[1..], b, ab[1..]);
    }
  }

  lemma {:induction false} FreeAppend(a: seq<Extent>, b: seq<Extent>, ab: seq<Extent>, k: int)
    requires ab == a + b
    ensures Free(ab, k) <==> Free(a, k) || Free(b, k)
    decreases |a|
  {
    if a == [] {
      assert ab == b;
    } else {
      assert ab[1..] == a[1..] + b;
      FreeAppend(a[1..], b, ab[1..], k);
    }
  }

  lemma FreeOne(e: Extent, k: int)
    ensures Free([e], k) <==> e.Has(k)
  {
    assert [e][1..] == [];
  }

  /** The list with element `i` replaced by the extents `mid`. */
  function Replace(list: seq<Extent>, i: nat, mid: seq<Extent>): seq<Extent>
    requires i < |list|
  {
    list[..i] + mid + list[i + 1..]
  }

  /** `mid` is what is left of `e`. */
  ghost predicate Inside(mid: seq<Extent>, e: Extent) {
    Canonical(mid) && (mid != [] ==> e.start <= mid[0].start && mid[|mid| - 1].End() <= e.End())
  }

  /** A list taken apart around element `i`. */
  lemma Around(list: seq<Extent>, i: nat)
    requires Canonical(list) && i < |list|
    ensures var pre, post := list[..i], list[i + 1..];
      && Canonical(pre) && Canonical(post) && list[i].count > 0
      && Separated(pre, [list[i]]) && Separated([list[i]], post) && Separated(pre, post)
  {
    var pre, tail, post := list[..i], list[i..], list[i + 1..];
    assert list == pre + tail;
    CanonicalAppend(pre, tail, list);
    assert tail[1..] == post;
  }

  lemma ReplaceCanonical(list: seq<Extent>, i: nat, mid: seq<Extent>)
    requires Canonical(list) && i < |list| && Inside(mid, list[i])
    ensures Canonical(Replace(list, i, mid))
  {
    var pre, post := list[..i], list[i + 1..];
    Around(list, i);
    CanonicalAppend(pre, mid, pre + mid);
    CanonicalAppend(pre + mid, post, Replace(list, i, mid));
  }

  lemma ReplaceFree(list: seq<Extent>, i: nat, mid: seq<Extent>, k: int)
    requires Canonical(list) && i < |list|
    ensures Free(Replace(list, i, mid), k) <==> (Free(list, k) && !list[i].Has(k)) || Free(mid, k)
    ensures list[i].Has(k) ==> Free(list, k)
  {
    var pre, post := list[..i], list[i + 1..];
    FreeAppend(pre, mid, pre + mid, k);
    FreeAppend(pre + mid, post, Replace(list, i, mid), k);
    FreeAround(list, i, k);
  }

  /** A block is free in at most one extent. */
  lemma FreeAround(list: seq<Extent>, i: nat, k: int)
    requires Canonical(list) && i < |list|
    ensures var pre, post := list[..i], list[i + 1..];
      && (Free(list, k) <==> Free(pre, k) || list[i].Has(k) || Free(post, k))
      && (list[i].Has(k) ==> !Free(pre, k) && !Free(post, k))
  {
    var pre, tail, post := list[..i], list[i..], list[i + 1..];
    assert list == pre + tail;
    FreeAppend(pre, tail, list, k);
    assert tail[1..] == post;
    Around(list, i);
    if Free(post, k) {
      FreeFrom(post, k);
    }
    if Free(pre, k) {
      FreeUpTo(pre, k);
    }
  }

  lemma {:induction false} FreeUpTo(list: seq<Extent>, k: int)
    requires Canonical(list) && Free(list, k)
    ensures k < list[|list| - 1].End()
    decreases |list|
  {
    if |list| > 1 {
      if Free(list[1..], k) {
        FreeUpTo(list[1..], k);
      } else {
        LastBeyond(list);
      }
    }
  }

  lemma {:induction false} LastBeyond(list: seq<Extent>)
    requires Canonical(list) && |list| > 1
    ensures list[0].End() < list[|list| - 1].start && list[|list| - 1].count > 0
    decreases |list|
  {
    if |list| > 2 {
      LastBeyond(list[1..]);
    }
  }

  // ---------------------------------------------------------------------------------------------
  // The operations as functions
  // ---------------------------------------------------------------------------------------------

  /** The part of `e` that remains when [lba, lba + n) is taken. */
  function Carve(e: Extent, lba: int, n: int): seq<Extent> {
    if e.start == lba then (if n < e.count then [Extent(lba + n, e.count - n)] else [])
    else if e.End() == lba + n then [Extent(e.start, e.count - n)]
    else [Extent(e.start, lba - e.start), Extent(lba + n, e.count - n - (lba - e.start))]
  }

  /** mark_used_blk: take the first n blocks of element i. */
  function MarkUsed(list: seq<Extent>, i: nat, n: int): seq<Extent>
    requires i < |list|
  {
    if n < list[i].count then list[i := Extent(list[i].start + n, list[i].count - n)]
    else list[..i] + list[i + 1..]
  }

  function FirstFit(list: seq<Extent>, n: int, i: nat): (r: nat)
    requires i <= |list|
    ensures i <= r <= |list| && (r < |list| ==> list[r].count >= n)
    ensures forall j | i <= j < r :: list[j].count < n
    decreases |list| - i
  {
    if i == |list| || list[i].count >= n then i else FirstFit(list, n, i + 1)
  }

  /** get_blk: the block number (-1 when nothing fits) and the new list. */
  function GetBlk(list: seq<Extent>, n: int): (int, seq<Extent>) {
    var i := FirstFit(list, n, 0);
    if i == |list| then (-1, list) else (list[i].start, MarkUsed(list, i, n))
  }

  /** The loop of alloc_block: the element holding lba, or the last one. */
  function Holding(list: seq<Extent>, lba: int, i: nat): (r: nat)
    requires i < |list|
    ensures i <= r < |list|
    ensures list[r].Has(lba) || forall j | i <= j < |list| :: !list[j].Has(lba)
    decreases |list| - i
  {
    if i + 1 == |list| || list[i].Has(lba) then i else Holding(list, lba, i + 1)
  }

  /** alloc_block. */
  function AllocBlock(list: seq<Extent>, lba: int, n: int): seq<Extent>
    requires list != []
  {
    var i := Holding(list, lba, 0);
    if list[i].start == lba then MarkUsed(list, i, n)
    else if list[i].End() == lba + n then list[i := Extent(list[i].start, list[i].count - n)]
    else list[..i] + [Extent(list[i].start, lba - list[i].start),
                      Extent(lba + n, list[i].count - n - (lba - list[i].start))] + list[i + 1..]
  }

  /** The loop of free_blk: the first element above lba. */
  function FirstAbove(list: seq<Extent>, lba: int, i: nat): (r: nat)
    requires i <= |list|
    ensures i <= r <= |list| && (r < |list| ==> lba < list[r].start)
    ensures forall j | i <= j < r :: list[j].start <= lba
    decreases |list| - i
  {
    if i == |list| || lba < list[i].start then i else FirstAbove(list, lba, i + 1)
  }

  /** There is a free extent above lba: what free_blk needs so as not to follow a null pointer. */
  predicate RoomAbove(list: seq<Extent>, lba: int) {
    FirstAbove(list, lba, 0) < |list|
  }

  /** The list with elements h .. t replaced by one extent. */
  function Merge(list: seq<Extent>, h: nat, t: nat, e: Extent): seq<Extent>
    requires h <= t <= |list|
  {
    list[..h] + [e] + list[t..]
  }

  /** free_blk, with `i` the element above and i - 1 the one before: the range joins both neighbours,
      the one before, the one after, or becomes an element of its own. */
  function FreeBlk(list: seq<Extent>, lba: int, n: int): seq<Extent>
    requires RoomAbove(list, lba)
  {
    var i := FirstAbove(list, lba, 0);
    if i > 0 && list[i - 1].End() == lba then
      var prev := list[i - 1];
      if lba + n == list[i].start
      then Merge(list, i - 1, i + 1, Extent(prev.start, prev.count + n + list[i].count))
      else Merge(list, i - 1, i, Extent(prev.start, prev.count + n))
    else if lba + n == list[i].start then Merge(list, i, i + 1, Extent(lba, list[i].count + n))
    else Merge(list, i, i, Extent(lba, n))
  }

  /** freelist_init. */
  function Initial(blocks: int): seq<Extent> {
    [Extent(0, blocks)]
  }

  // ---------------------------------------------------------------------------------------------
  // What they do to the set of free blocks
  // ---------------------------------------------------------------------------------------------

  predicate InRange(k: int, lba: int, n: int) {
    lba <= k < lba + n
  }

  ghost predicate AllFree(list: seq<Extent>, lba: int, n: int) {
    forall k | InRange(k, lba, n) :: Free(list, k)
  }

  ghost predicate NoneFree(list: seq<Extent>, lba: int, n: int) {
    forall k | InRange(k, lba, n) :: !Free(list, k)
  }

  lemma CarveInside(e: Extent, lba: int, n: int, k: int)
    requires n > 0 && e.start <= lba && lba + n <= e.End()
    ensures Inside(Carve(e, lba, n), e)
    ensures Free(Carve(e, lba, n), k) <==> e.Has(k) && !InRange(k, lba, n)
  {
    var c := Carve(e, lba, n);
    if |c| == 1 {
      assert c == [c[0]];
      FreeOne(c[0], k);
    } else if |c| == 2 {
      assert c[1..] == [c[1]];
      FreeOne(c[1], k);
    }
  }

  /** Taking [lba, lba + n) out of the extent that holds it. */
  lemma TakeOut(list: seq<Extent>, i: nat, lba: int, n: int, k: int)
    requires Canonical(list) && i < |list| && n > 0 && list[i].start <= lba && lba + n <= list[i].End()
    ensures var r := Replace(list, i, Carve(list[i], lba, n));
            Canonical(r) && (Free(r, k) <==> Free(list, k) && !InRange(k, lba, n))
  {
    CarveInside(list[i], lba, n, k);
    ReplaceCanonical(list, i, Carve(list[i], lba, n));
    ReplaceFree(list, i, Carve(list[i], lba, n), k);
    FreeAround(list, i, k);
  }

  lemma MarkUsedIsCarve(list: seq<Extent>, i: nat, n: int)
    requires i < |list| && 0 < n <= list[i].count
    ensures MarkUsed(list, i, n) == Replace(list, i, Carve(list[i], list[i].start, n))
  {
  }

  /** A free range of a canonical list lies in one extent. */
  lemma {:induction false} RangeInOne(list: seq<Extent>, lba: int, n: int, i: nat)
    requires Canonical(list) && i < |list| && list[i].Has(lba) && n > 0 && AllFree(list, lba, n)
    ensures lba + n <= list[i].End()
  {
    if lba + n > list[i].End() {
      var k := list[i].End();
      assert InRange(k, lba, n);
      assert Free(list, k);
      FreeAround(list, i, k);
      Around(list, i);
      var pre, post := list[..i], list[i + 1..];
      if Free(post, k) {
        FreeFrom(post, k);
      } else {
        FreeUpTo(pre, k);
      }
      assert false;
    }
  }

  lemma {:induction false} HolderExists(list: seq<Extent>, lba: int) returns (j: nat)
    requires Free(list, lba)
    ensures j < |list| && list[j].Has(lba)
    decreases |list|
  {
    if list[0].Has(lba) {
      j := 0;
    } else {
      var m := HolderExists(list[1..], lba);
      j := m + 1;
    }
  }

  lemma {:induction false} StartsSorted(list: seq<Extent>, i: nat, j: nat)
    requires Canonical(list) && i <= j < |list|
    ensures list[i].start <= list[j].start
    decreases j
  {
    if i < j {
      NeighbourGaps(list, j);
      StartsSorted(list, i, j - 1);
    }
  }

  /** get_blk removes exactly the range it returns, which was free, and no range of that size starts
      lower; it fails exactly when there is none. */
  lemma GetBlkTakes(list: seq<Extent>, n: int, k: int)
    requires Canonical(list) && n > 0
    ensures var (lba, r) := GetBlk(list, n);
      && Canonical(r)
      && (FirstFit(list, n, 0) == |list| ==> lba == -1 && r == list)
      && (FirstFit(list, n, 0) < |list| ==>
            AllFree(list, lba, n) && (Free(r, k) <==> Free(list, k) && !InRange(k, lba, n)))
  {
    var i := FirstFit(list, n, 0);
    if i < |list| {
      var lba := list[i].start;
      MarkUsedIsCarve(list, i, n);
      TakeOut(list, i, lba, n, k);
      forall b | InRange(b, lba, n)
        ensures Free(list, b)
      {
        FreeAround(list, i, b);
      }
    }
  }

  lemma GetBlkLowest(list: seq<Extent>, n: int, l: int)
    requires Canonical(list) && n > 0 && AllFree(list, l, n)
    ensures FirstFit(list, n, 0) < |list| && GetBlk(list, n).0 <= l
  {
    assert InRange(l, l, n);
    var j := HolderExists(list, l);
    RangeInOne(list, l, n, j);
    var i := FirstFit(list, n, 0);
    StartsSorted(list, i, j);
  }

  /** It takes from the start of an extent: the block before was not free. */
  lemma GetBlkFromStart(list: seq<Extent>, n: int)
    requires Canonical(list) && FirstFit(list, n, 0) < |list|
    ensures !Free(list, GetBlk(list, n).0 - 1)
  {
    var i := FirstFit(list, n, 0);
    if Free(list, list[i].start - 1) {
      var j := HolderExists(list, list[i].start - 1);
      if j < i {
        NeighbourGaps(list, j + 1);
        StartsSorted(list, j + 1, i);
      } else {
        StartsSorted(list, i, j);
      }
    }
  }

  /** alloc_block of a free range removes exactly that range. */
  lemma AllocBlockTakes(list: seq<Extent>, lba: int, n: int, k: int)
    requires Canonical(list) && n > 0 && AllFree(list, lba, n)
    ensures list != [] && Canonical(AllocBlock(list, lba, n))
    ensures Free(AllocBlock(list, lba, n), k) <==> Free(list, k) && !InRange(k, lba, n)
  {
    assert InRange(lba, lba, n);
    var j := HolderExists(list, lba);
    var i := Holding(list, lba, 0);
    RangeInOne(list, lba, n, i);
    if list[i].start == lba {
      MarkUsedIsCarve(list, i, n);
    }
    assert AllocBlock(list, lba, n) == Replace(list, i, Carve(list[i], lba, n));
    TakeOut(list, i, lba, n, k);
  }

  lemma MergeCanonical(list: seq<Extent>, h: nat, t: nat, e: Extent)
    requires Canonical(list) && h <= t <= |list| && e.count > 0
    requires Separated(list[..h], [e]) && Separated([e], list[t..])
    ensures Canonical(Merge(list, h, t, e))
  {
    var pre, post := list[..h], list[t..];
    assert list == pre + list[h..];
    CanonicalAppend(pre, list[h..], list);
    assert list == list[..t] + post;
    CanonicalAppend(list[..t], post, list);
    assert [e][1..] == [];
    CanonicalAppend(pre, [e], pre + [e]);
    CanonicalAppend(pre + [e], post, Merge(list, h, t, e));
  }

  lemma MergeFree(list: seq<Extent>, h: nat, t: nat, e: Extent, k: int)
    requires h <= t <= |list|
    ensures Free(Merge(list, h, t, e), k) <==> Free(list[..h], k) || e.Has(k) || Free(list[t..], k)
    ensures Free(list, k) <==> Free(list[..h], k) || Free(list[h..t], k) || Free(list[t..], k)
  {
    var pre, mid, post := list[..h], list[h..t], list[t..];
    FreeOne(e, k);
    FreeAppend(pre, [e], pre + [e], k);
    FreeAppend(pre + [e], post, Merge(list, h, t, e), k);
    assert list == pre + mid + post;
    FreeAppend(pre, mid, pre + mid, k);
    FreeAppend(pre + mid, post, list, k);
  }

  /** Where a range that is not free lies between its neighbours. */
  lemma BetweenNeighbours(list: seq<Extent>, lba: int, n: int)
    requires Canonical(list) && n > 0 && NoneFree(list, lba, n) && RoomAbove(list, lba)
    ensures var i := FirstAbove(list, lba, 0);
      && lba + n <= list[i].start
      && (i > 0 ==> list[i - 1].End() <= lba)
  {
    var i := FirstAbove(list, lba, 0);
    FreeAround(list, i, list[i].start);
    Around(list, i);
    if lba + n > list[i].start {
      assert InRange(list[i].start, lba, n);
      assert false;
    }
    if i > 0 {
      FreeAround(list, i - 1, lba);
      assert InRange(lba, lba, n);
    }
  }

  /** The neighbours themselves keep their distance. */
  lemma NeighbourGaps(list: seq<Extent>, i: nat)
    requires Canonical(list) && i < |list|
    ensures Separated(list[..i], list[i..]) && Separated([list[i]], list[i + 1..])
    ensures i > 0 ==> Separated(list[..i - 1], [list[i - 1]]) && list[i - 1].End() < list[i].start
    ensures i > 0 ==> list[i - 1].count > 0
  {
    Around(list, i);
    if i > 0 {
      Around(list, i - 1);
    }
    assert list == list[..i] + list[i..];
    CanonicalAppend(list[..i], list[i..], list);
  }

  /** `e` is the elements h .. t of the list and the range [lba, lba + n) in one. */
  ghost predicate Covers(list: seq<Extent>, h: nat, t: nat, e: Extent, lba: int, n: int)
    requires h <= t <= |list|
  {
    && e.count > 0
    && Separated(list[..h], [e]) && Separated([e], list[t..])
    && forall k :: e.Has(k) <==> Free(list[h..t], k) || InRange(k, lba, n)
  }

  lemma CoversNone(list: seq<Extent>, i: nat, lba: int, n: int)
    requires Canonical(list) && i < |list| && n > 0
    requires lba + n < list[i].start && (i > 0 ==> list[i - 1].End() < lba)
    ensures Covers(list, i, i, Extent(lba, n), lba, n)
  {
    assert list[i..i] == [];
  }

  lemma CoversOne(list: seq<Extent>, i: nat, e: Extent, lba: int, n: int)
    requires Canonical(list) && i < |list| && n > 0 && e.count == list[i].count + n
    requires || (e.start == lba && lba + n == list[i].start && (i > 0 ==> list[i - 1].End() < lba))
             || (e.start == list[i].start && list[i].End() == lba && (i + 1 < |list| ==> lba + n < list[i + 1].start))
    ensures Covers(list, i, i + 1, e, lba, n)
  {
    NeighbourGaps(list, i);
    Around(list, i);
    var mid := list[i..i + 1];
    assert mid == [list[i]];
    forall k
      ensures e.Has(k) <==> Free(mid, k) || InRange(k, lba, n)
    {
      FreeOne(list[i], k);
    }
  }

  lemma CoversTwo(list: seq<Extent>, i: nat, e: Extent, lba: int, n: int)
    requires Canonical(list) && 0 < i < |list| && n > 0
    requires list[i - 1].End() == lba && lba + n == list[i].start
    requires e == Extent(list[i - 1].start, list[i - 1].count + n + list[i].count)
    ensures Covers(list, i - 1, i + 1, e, lba, n)
  {
    NeighbourGaps(list, i);
    Around(list, i);
    var mid := list[i - 1..i + 1];
    assert mid == [list[i - 1]] + [list[i]];
    forall k
      ensures e.Has(k) <==> Free(mid, k) || InRange(k, lba, n)
    {
      FreeAppend([list[i - 1]], [list[i]], mid, k);
      FreeOne(list[i - 1], k);
      FreeOne(list[i], k);
    }
  }

  /** free_blk is one merge in each of its four cases. */
  lemma FreeBlkIsMerge(list: seq<Extent>, lba: int, n: int) returns (h: nat, t: nat, e: Extent)
    requires Canonical(list) && n > 0 && NoneFree(list, lba, n) && RoomAbove(list, lba)
    ensures h <= t <= |list| && FreeBlk(list, lba, n) == Merge(list, h, t, e)
    ensures Covers(list, h, t, e, lba, n)
  {
    var i := FirstAbove(list, lba, 0);
    BetweenNeighbours(list, lba, n);
    if i > 0 && list[i - 1].End() == lba {
      if lba + n == list[i].start {
        h, t, e := i - 1, i + 1, Extent(list[i - 1].start, list[i - 1].count + n + list[i].count);
        CoversTwo(list, i, e, lba, n);
      } else {
        h, t, e := i - 1, i, Extent(list[i - 1].start, list[i - 1].count + n);
        CoversOne(list, i - 1, e, lba, n);
      }
    } else if lba + n == list[i].start {
      h, t, e := i, i + 1, Extent(lba, list[i].count + n);
      CoversOne(list, i, e, lba, n);
    } else {
      h, t, e := i, i, Extent(lba, n);
      CoversNone(list, i, lba, n);
    }
  }

  /** free_blk of a used range, with a free extent above it, adds exactly that range. */
  lemma FreeBlkGives(list: seq<Extent>, lba: int, n: int, k: int)
    requires Canonical(list) && n > 0 && NoneFree(list, lba, n) && RoomAbove(list, lba)
    ensures Canonical(FreeBlk(list, lba, n))
    ensures Free(FreeBlk(list, lba, n), k) <==> Free(list, k) || InRange(k, lba, n)
  {
    var h, t, e := FreeBlkIsMerge(list, lba, n);
    MergeCanonical(list, h, t, e);
    MergeFree(list, h, t, e, k);
  }

  /** What get_blk took, free_blk gives back: the list is the same again. */
  lemma GetThenFree(list: seq<Extent>, n: int)
    requires Canonical(list) && n > 0 && FirstFit(list, n, 0) < |list|
    requires var (lba, r) := GetBlk(list, n); RoomAbove(r, lba)
    ensures var (lba, r) := GetBlk(list, n); FreeBlk(r, lba, n) == list
  {
    var (lba, r) := GetBlk(list, n);
    GetBlkTakes(list, n, lba);
    forall k | InRange(k, lba, n)
      ensures !Free(r, k)
    {
      GetBlkTakes(list, n, k);
    }
    FreeBlkGives(r, lba, n, lba);
    forall k
      ensures Free(FreeBlk(r, lba, n), k) <==> Free(list, k)
    {
      GetBlkTakes(list, n, k);
      FreeBlkGives(r, lba, n, k);
    }
    CanonicalUnique(FreeBlk(r, lba, n), list);
  }

  /** The same for a range taken by alloc_block. */
  lemma AllocThenFree(list: seq<Extent>, lba: int, n: int)
    requires Canonical(list) && n > 0 && AllFree(list, lba, n)
    requires list != [] && RoomAbove(AllocBlock(list, lba, n), lba)
    ensures FreeBlk(AllocBlock(list, lba, n), lba, n) == list
  {
    var r := AllocBlock(list, lba, n);
    AllocBlockTakes(list, lba, n, lba);
    forall k | InRange(k, lba, n)
      ensures !Free(r, k)
    {
      AllocBlockTakes(list, lba, n, k);
    }
    FreeBlkGives(r, lba, n, lba);
    forall k
      ensures Free(FreeBlk(r, lba, n), k) <==> Free(list, k)
    {
      AllocBlockTakes(list, lba, n, k);
      FreeBlkGives(r, lba, n, k);
    }
    CanonicalUnique(FreeBlk(r, lba, n), list);
  }

  /** A free block above lba is room above it. */
  lemma RoomFromFree(list: seq<Extent>, lba: int, b: int)
    requires Canonical(list) && Free(list, b) && lba < b && !Free(list, lba)
    ensures RoomAbove(list, lba)
  {
    var j := HolderExists(list, b);
    FreeAround(list, j, lba);
    if FirstAbove(list, lba, 0) == |list| {
      assert false;
    }
  }

  // ---------------------------------------------------------------------------------------------
  // The program
  // ---------------------------------------------------------------------------------------------

  /** The global list of dp/core/blk_freelist.c. */
  class FreeList {
    var list: seq<Extent>

    /** freelist_init. */
    constructor (blocks: int)
      requires blocks > 0
      ensures list == Initial(blocks) && Canonical(list)
      ensures forall k :: Free(list, k) <==> InRange(k, 0, blocks)
    {
      list := [Extent(0, blocks)];
      new;
      assert list[1..] == [];
    }

    /** mark_used_blk on element `ent`. */
    method MarkUsedBlk(ent: nat, numBlks: int)
      requires ent < |list|
      modifies this
      ensures list == MarkUsed(old(list), ent, numBlks)
    {
      if numBlks < list[ent].count {
        list := list[ent := Extent(list[ent].start + numBlks, list[ent].count - numBlks)];
      } else {
        list := list[..ent] + list[ent + 1..];
      }
    }

    /** get_blk. */
    method GetBlock(numBlks: int) returns (lba: int)
      modifies this
      ensures (lba, list) == GetBlk(old(list), numBlks)
    {
      var iter := 0;
      while iter < |list| && list[iter].count < numBlks
        invariant iter <= |list| && FirstFit(list, numBlks, iter) == FirstFit(list, numBlks, 0)
        invariant list == old(list)
      {
        iter := iter + 1;
      }
      if iter == |list| {
        return -1;
      }
      lba := list[iter].start;
      MarkUsedBlk(iter, numBlks);
    }

    /** alloc_block; the assertion in the source is the second precondition. */
    method Alloc(lba: int, count: int)
      requires list != []
      requires lba + count <= list[Holding(list, lba, 0)].End()
      modifies this
      ensures list == AllocBlock(old(list), lba, count)
    {
      var ent := 0;
      while ent + 1 < |list| && !list[ent].Has(lba)
        invariant ent < |list| && Holding(list, lba, ent) == Holding(list, lba, 0)
        invariant list == old(list)
      {
        ent := ent + 1;
      }
      var e := list[ent];
      if e.start == lba {
        MarkUsedBlk(ent, count);
      } else if e.End() == lba + count {
        list := list[ent := Extent(e.start, e.count - count)];
      } else {
        var newent := Extent(lba + count, e.count - count - (lba - e.start));
        list := list[..ent] + [Extent(e.start, lba - e.start), newent] + list[ent + 1..];
      }
    }

    /** free_blk. */
    method FreeBlock(lba: int, numBlks: int)
      requires Canonical(list) && numBlks > 0 && NoneFree(list, lba, numBlks) && RoomAbove(list, lba)
      modifies this
      ensures list == FreeBlk(old(list), lba, numBlks)
    {
      var iter := 0;
      while iter < |list| && list[iter].start <= lba
        invariant iter <= |list| && FirstAbove(list, lba, iter) == FirstAbove(list, lba, 0)
        invariant list == old(list)
      {
        iter := iter + 1;
      }
      BetweenNeighbours(list, lba, numBlks);
      CoalesceAt(iter, lba, numBlks);
    }

    /** The part of free_blk after its search loop: extend a neighbour or insert, then join the two
        neighbours if they now touch (coalesce_blks, coalesce_entries). */
    method CoalesceAt(iter: nat, lba: int, numBlks: int)
      requires iter == FirstAbove(list, lba, 0) < |list| && numBlks > 0
      requires lba + numBlks <= list[iter].start && (iter > 0 ==> list[iter - 1].End() <= lba)
      modifies this
      ensures list == FreeBlk(old(list), lba, numBlks)
    {
      if iter > 0 && list[iter - 1].End() == lba {
        list := list[iter - 1 := Extent(list[iter - 1].start, list[iter - 1].count + numBlks)];
        if list[iter - 1].End() == list[iter].start {
          var first := Extent(list[iter - 1].start, list[iter - 1].count + list[iter].count);
          list := list[..iter - 1] + [first] + list[iter + 1..];
        }
      } else if lba + numBlks == list[iter].start {
        list := list[iter := Extent(lba, list[iter].count + numBlks)];
      } else {
        list := list[..iter] + [Extent(lba, numBlks)] + list[iter..];
      }
    }
  }
}
