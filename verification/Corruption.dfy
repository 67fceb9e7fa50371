/** What the checksum of a record is for (init_cb of dp/core/blk_index.c): a record whose value has been
    damaged is not taken in when the store starts.

    `GoodExactly` says which records count as good; `DamageSkipped` that after any damage within 32 bits in a
    row of the value of a record the scan of any image finds what it would find without that record. */
module Corruption {
  import opened Common
  import opened Words
  import opened BlkIndex
  import opened KvStore
  import opened Recovery
  import BlkIo
  import Crc32
  import Restart

  // ---------------------------------------------------------------------------------------------
  // The checksum
  // ---------------------------------------------------------------------------------------------

  /** A block that begins like a record is a good one exactly when it lies on the device and its value has
      the checksum in its metadata. */
  lemma GoodExactly(dev: seq<byte>, pos: nat, off: nat, len: nat, sum: nat)
    requires Sized(dev) && pos < MAX_LBA_NUM && off == pos * LBA_SIZE && Number(dev[off..off + 2]) == METAMAGIC
    requires len == Number(dev[off + 114..off + 122]) && sum == Number(dev[off + 122..off + 126])
    ensures Blocks(dev)(pos).Some? && (pos + NumBlks(len) <= MAX_LBA_NUM ==> off + META_SZ + len <= |dev|)
    ensures var r := Blocks(dev)(pos).value;
      && r.pos == pos && r.ent.valLen == len && r.ent.crc == sum
      && (r.good <==> pos + NumBlks(len) <= MAX_LBA_NUM
                      && Crc32.Crc(dev[off + META_SZ..off + META_SZ + len]) == sum)
  {
    var meta := dev[off..off + META_SZ];
    FieldsAt(CString, Number, dev, off, meta, dev[off + 114..off + 122], dev[off + 122..off + 126]);
    if pos + NumBlks(len) <= MAX_LBA_NUM {
      var at := Restart.ValueWithin(pos, NumBlks(len), len);
      GoodIs(dev, pos, off, ReadMeta(meta), dev[at..at + len]);
    } else {
      BlockIs(dev, pos, ReadMeta(meta));
    }
  }

  lemma FieldsAt(str: seq<byte> -> Key, num: seq<byte> -> nat, dev: seq<byte>, off: nat, meta: seq<byte>,
                 lens: seq<byte>, sums: seq<byte>)
    requires off + META_SZ <= |dev| && meta == dev[off..off + META_SZ]
    requires lens == dev[off + 114..off + 122] && sums == dev[off + 122..off + 126]
    ensures ReadFields(str, num, meta).valLen == num(lens) && ReadFields(str, num, meta).crc == num(sums)
  {
    FieldOf(dev, off, META_SZ, 114, 122, meta);
    FieldOf(dev, off, META_SZ, 122, 126, meta);
  }

  lemma GoodIs(dev: seq<byte>, pos: nat, off: nat, ent: IndexEnt, val: seq<byte>)
    requires Sized(dev) && pos < MAX_LBA_NUM && HasMagic(dev, pos) && off == pos * LBA_SIZE
    requires ent == ReadMeta(dev[off..off + META_SZ]) && pos + ent.Blks() <= MAX_LBA_NUM
    requires off + META_SZ + ent.valLen <= |dev| && val == dev[off + META_SZ..off + META_SZ + ent.valLen]
    ensures Blocks(dev)(pos) == Some(Rec(pos, ent, Crc32.Crc(val) == ent.crc))
  {
    Restart.CrcOfSlice(dev, pos, ent.valLen, val);
    BlockIs(dev, pos, ent);
  }

  lemma BlockIs(dev: seq<byte>, pos: nat, ent: IndexEnt)
    requires Sized(dev) && pos < MAX_LBA_NUM && HasMagic(dev, pos)
    requires ent == ReadMeta(dev[pos * LBA_SIZE..pos * LBA_SIZE + META_SZ])
    ensures Blocks(dev)(pos) ==
              Some(Rec(pos, ent, pos + ent.Blks() <= MAX_LBA_NUM && ValueCrc(dev, pos, ent.valLen) == ent.crc))
  {
    RecordIs(dev, pos, ent, dev[pos * LBA_SIZE..pos * LBA_SIZE + META_SZ]);
  }

  lemma RecordIs(dev: seq<byte>, pos: nat, ent: IndexEnt, meta: seq<byte>)
    requires Sized(dev) && pos < MAX_LBA_NUM
    requires meta == dev[pos * LBA_SIZE..pos * LBA_SIZE + META_SZ] && ent == ReadMeta(meta)
    ensures RecAt(dev, pos) ==
              Rec(pos, ent, pos + ent.Blks() <= MAX_LBA_NUM && ValueCrc(dev, pos, ent.valLen) == ent.crc)
  {
  }

  lemma FieldOf(dev: seq<byte>, off: nat, n: nat, i: nat, j: nat, meta: seq<byte>)
    requires i <= j <= n && off + n <= |dev| && meta == dev[off..off + n]
    ensures meta[i..j] == dev[off + i..off + j]
  {
    assert forall x | i <= x < j :: meta[x] == dev[off + x];
  }

  /** Five bytes that differ in some of 32 bits in a row. */
  predicate BitsDiffer(u: seq<byte>, v: seq<byte>, k: nat, burst: nat)
    requires |u| == 5 && |v| == 5
  {
    k <= 8 && 0 < burst < TWO32 && Xor(Crc32.FiveBytes(u), Crc32.FiveBytes(v)) == Pow2(k) * burst
  }

  /** Damage within 32 bits in a row. */
  ghost predicate Damage(u: seq<byte>, v: seq<byte>) {
    && |u| == |v| <= 5 && u != v
    && (|u| == 5 ==> exists k: nat, burst: nat :: BitsDiffer(u, v, k, burst))
  }

  lemma ShortDiffers(c: nat, u: seq<byte>, v: seq<byte>, z: seq<byte>)
    requires c < TWO32 && |u| == |v| && |u| + |z| == 4 && u != v
    ensures Crc32.FeedBytes(Crc32.Step, c, u) != Crc32.FeedBytes(Crc32.Step, c, v)
  {
    var x, y := u + z, v + z;
    assert x[..|u|] == u && y[..|u|] == v;
    Crc32.WordsDiffer(x, y);
    Crc32.AddedStepsDiffer(32, c, Crc32.Word(x[0], x[1], x[2], x[3]), Crc32.Word(y[0], y[1], y[2], y[3]));
    Crc32.StepRegular();
    Crc32.FeedFourBytes(Crc32.Step, c, x);
    Crc32.FeedFourBytes(Crc32.Step, c, y);
    Crc32.FeedConcat(Crc32.Step, c, u, z);
    Crc32.FeedConcat(Crc32.Step, c, v, z);
  }

  /** Any such damage shows in the checksum, of a value of any length. */
  lemma DamageDetected(a: seq<byte>, u: seq<byte>, v: seq<byte>, b: seq<byte>)
    requires Damage(u, v)
    ensures Crc32.Crc(a + u + b) != Crc32.Crc(a + v + b)
  {
    if |u| == 5 {
      var k: nat, burst: nat :| BitsDiffer(u, v, k, burst);
      Crc32.BitBurstDetected(a, u, v, b, k, burst);
    } else {
      var c := Crc32.FeedBytes(Crc32.Step, Crc32.ONES, a);
      Crc32.FeedWordBound(Crc32.ONES, a);
      ShortDiffers(c, u, v, seq(4 - |u|, _ => 0));
      Crc32.DifferentFromHere(a, u, v, b, c);
    }
  }

  // ---------------------------------------------------------------------------------------------
  // One block
  // ---------------------------------------------------------------------------------------------

  /** From dev to dev1, damage was done to the value of record r, at byte i of it. */
  ghost predicate Damaged(dev: seq<byte>, dev1: seq<byte>, r: Rec, i: nat, v: seq<byte>) {
    && Sized(dev) && r.pos + r.ent.Blks() <= MAX_LBA_NUM && i + |v| <= r.ent.valLen
    && var at := r.pos * LBA_SIZE + META_SZ + i;
    && at + |v| <= |dev| && Damage(dev[at..at + |v|], v) && dev1 == WriteAt(dev, at, v)
  }

  lemma ThreeParts(val: seq<byte>, i: nat, j: nat)
    requires i <= j <= |val|
    ensures val == val[..i] + val[i..j] + val[j..]
  {
  }

  lemma ValueDamaged(dev: seq<byte>, off: nat, len: nat, i: nat, v: seq<byte>, val: seq<byte>, val1: seq<byte>)
    requires off + len <= |dev| && i + |v| <= len && val == dev[off..off + len]
    requires val1 == WriteAt(dev, off + i, v)[off..off + len]
    ensures |val| == |val1| == len && val[i..i + |v|] == dev[off + i..off + i + |v|]
    ensures val1 == val[..i] + v + val[i + |v|..]
  {
    assert forall x | i <= x < i + |v| :: val[x] == dev[off + x];
  }

  lemma CrcDamaged(val: seq<byte>, val1: seq<byte>, i: nat, v: seq<byte>)
    requires i + |v| <= |val| && Damage(val[i..i + |v|], v) && val1 == val[..i] + v + val[i + |v|..]
    ensures Crc32.Crc(val1) != Crc32.Crc(val)
  {
    ThreeParts(val, i, i + |v|);
    DamageDetected(val[..i], val[i..i + |v|], v, val[i + |v|..]);
  }

  lemma SumDamaged(dev: seq<byte>, dev1: seq<byte>, pos: nat, len: nat, off: nat, i: nat, v: seq<byte>)
    requires Sized(dev) && Sized(dev1) && pos + NumBlks(len) <= MAX_LBA_NUM && off == pos * LBA_SIZE + META_SZ
    requires off + len <= |dev| && i + |v| <= len && Damage(dev[off + i..off + i + |v|], v)
    requires dev1 == WriteAt(dev, off + i, v)
    ensures ValueCrc(dev1, pos, len) != ValueCrc(dev, pos, len)
  {
    var val, val1 := dev[off..off + len], dev1[off..off + len];
    ValueDamaged(dev, off, len, i, v, val, val1);
    CrcDamaged(val, val1, i, v);
    Restart.CrcOfSlice(dev, pos, len, val);
    Restart.CrcOfSlice(dev1, pos, len, val1);
  }

  /** The record is still there, and no longer a good one. */
  lemma BlockDamaged(dev: seq<byte>, dev1: seq<byte>, r: Rec, i: nat, v: seq<byte>)
    requires Damaged(dev, dev1, r, i, v) && Blocks(dev)(r.pos) == Some(r) && r.good
    ensures Sized(dev1) && Blocks(dev1)(r.pos) == Some(r.(good := false))
  {
    var len, start := r.ent.valLen, r.pos * LBA_SIZE;
    var off := start + META_SZ;
    EnoughBlocks(len);
    WriteAtElsewhere(dev, off + i, v, start, start + 2);
    WriteAtElsewhere(dev, off + i, v, start, start + META_SZ);
    SumDamaged(dev, dev1, r.pos, len, off, i, v);
    RecordDamaged(dev, dev1, r);
  }

  lemma RecordDamaged(dev: seq<byte>, dev1: seq<byte>, r: Rec)
    requires Sized(dev) && Sized(dev1) && r.pos + r.ent.Blks() <= MAX_LBA_NUM
    requires Blocks(dev)(r.pos) == Some(r) && r.good
    requires var start := r.pos * LBA_SIZE;
      dev1[start..start + 2] == dev[start..start + 2] && dev1[start..start + META_SZ] == dev[start..start + META_SZ]
    requires ValueCrc(dev1, r.pos, r.ent.valLen) != ValueCrc(dev, r.pos, r.ent.valLen)
    ensures Blocks(dev1)(r.pos) == Some(r.(good := false))
  {
    assert HasMagic(dev, r.pos) && r == RecAt(dev, r.pos);
    assert HasMagic(dev1, r.pos);
    var r1 := RecAt(dev1, r.pos);
    assert r1.ent == r.ent;
  }

  /** Blocks elsewhere read as before. */
  lemma OutsideSame(dev: seq<byte>, dev1: seq<byte>, r: Rec, i: nat, v: seq<byte>, b: nat)
    requires Damaged(dev, dev1, r, i, v) && Restart.SpanClear(Blocks(dev), b, r.pos, r.ent.Blks())
    ensures Sized(dev1) && Blocks(dev1)(b) == Blocks(dev)(b)
  {
    var m := if Blocks(dev)(b).Some? then Blocks(dev)(b).value.ent.Blks() else 1;
    EnoughBlocks(r.ent.valLen);
    var at := r.pos * LBA_SIZE + META_SZ + i;
    assert at + |v| <= (r.pos + r.ent.Blks()) * LBA_SIZE;
    WriteAtElsewhere(dev, at, v, b * LBA_SIZE, (b + m) * LBA_SIZE);
    Restart.BlockSame(dev, dev1, b, m);
  }

  // ---------------------------------------------------------------------------------------------
  // The scan
  // ---------------------------------------------------------------------------------------------

  /** What the scan meets from a block on lies from there on. */
  lemma {:induction false} VisitFrom(read: nat -> Option<Rec>, p: nat, j: nat)
    requires Positioned(read) && j < |Visit(read, p)|
    ensures p <= Visit(read, p)[j].pos
    decreases MAX_LBA_NUM - p
  {
    if read(p).Some? {
      if j > 0 {
        VisitFrom(read, p + read(p).value.ent.Blks(), j - 1);
      }
    } else {
      VisitFrom(read, p + 1, j);
    }
  }

  /** Behind the record the scan goes on as before. */
  lemma {:induction false} VisitBehind(read: nat -> Option<Rec>, read1: nat -> Option<Rec>, r: Rec, p: nat)
    requires Positioned(read) && Restart.SameOutside(read, read1, r.pos, r.ent.Blks())
    requires r.pos + r.ent.Blks() <= p && AllSound(Visit(read, p))
    ensures Visit(read1, p) == Visit(read, p)
    decreases MAX_LBA_NUM - p
  {
    if p < MAX_LBA_NUM {
      if read(p).Some? {
        var recs, next := Visit(read, p), p + read(p).value.ent.Blks();
        AllSoundTail(read(p).value, Visit(read, next), recs);
        assert Restart.SpanClear(read, p, r.pos, r.ent.Blks());
        VisitBehind(read, read1, r, next);
      } else {
        assert Restart.SpanClear(read, p, r.pos, r.ent.Blks());
        VisitBehind(read, read1, r, p + 1);
      }
    }
  }

  lemma ReplaceLater(r: Rec, rest: seq<Rec>, j: nat, bad: Rec, recs: seq<Rec>)
    requires recs == [r] + rest && 0 < j < |recs|
    ensures [r] + rest[j - 1 := bad] == recs[j := bad] && recs[j] == rest[j - 1]
  {
  }

  lemma ReplaceFirst(r: Rec, rest: seq<Rec>, bad: Rec, recs: seq<Rec>)
    requires recs == [r] + rest
    ensures [bad] + rest == recs[0 := bad]
  {
  }

  /** Before the record the scan takes the same step. */
  lemma StepDamaged(read: nat -> Option<Rec>, read1: nat -> Option<Rec>, r: Rec, p: nat, j: nat)
    requires Positioned(read) && Restart.SameOutside(read, read1, r.pos, r.ent.Blks())
    requires p < MAX_LBA_NUM && j < |Visit(read, p)| && Visit(read, p)[j] == r && (read(p).Some? ==> j > 0)
    requires read(p).Some? ==> SoundRec(read(p).value)
    ensures read1(p) == read(p)
  {
    if read(p).Some? {
      VisitFrom(read, p + read(p).value.ent.Blks(), j - 1);
    } else {
      VisitFrom(read, p + 1, j);
    }
    assert Restart.SpanClear(read, p, r.pos, r.ent.Blks());
  }

  /** With the record no longer good, the scan meets the same records in the same order. */
  lemma {:induction false} VisitDamaged(read: nat -> Option<Rec>, read1: nat -> Option<Rec>, r: Rec, p: nat, j: nat,
                                        bad: Rec, recs: seq<Rec>)
    requires Positioned(read) && Restart.SameOutside(read, read1, r.pos, r.ent.Blks()) && bad == r.(good := false)
    requires read1(r.pos) == Some(bad) && recs == Visit(read, p) && AllSound(recs) && j < |recs| && recs[j] == r
    ensures Visit(read1, p) == recs[j := bad]
    decreases MAX_LBA_NUM - p
  {
    if read(p).Some? {
      var first := read(p).value;
      var next := p + first.ent.Blks();
      var rest := Visit(read, next);
      AllSoundTail(first, rest, recs);
      if j == 0 {
        VisitBehind(read, read1, r, next);
        ReplaceFirst(first, rest, bad, recs);
      } else {
        ReplaceLater(first, rest, j, bad, recs);
        StepDamaged(read, read1, r, p, j);
        VisitDamaged(read, read1, r, next, j - 1, bad, rest);
      }
    } else {
      StepDamaged(read, read1, r, p, j);
      VisitDamaged(read, read1, r, p + 1, j, bad, recs);
    }
  }

  /** No other key is found differently. */
  lemma {:induction false} BestWithout(recs: seq<Rec>, recs1: seq<Rec>, k: Key, sofar: Option<IndexEnt>)
    requires |recs| == |recs1|
    requires forall j | 0 <= j < |recs| :: recs[j].ent == recs1[j].ent && (Of(recs[j], k) <==> Of(recs1[j], k))
    ensures Best(recs1, k, sofar) == Best(recs, k, sofar)
    decreases |recs|
  {
    if recs != [] {
      var r, next := recs[0], recs[1..];
      var next1 := recs1[1..];
      assert forall j | 0 <= j < |next| :: next[j] == recs[j + 1] && next1[j] == recs1[j + 1];
      assert Of(recs[0], k) <==> Of(recs1[0], k);
      BestWithout(next, next1, k,
                  if Of(r, k) && (sofar.None? || sofar.value.version < r.ent.version) then Some(r.ent) else sofar);
    }
  }

  /** A record of the key other than record j. */
  predicate OtherOf(recs: seq<Rec>, j: nat, k: Key, l: nat) {
    l < |recs| && l != j && Of(recs[l], k)
  }

  /** The newest of them. */
  ghost predicate NewestOther(recs: seq<Rec>, j: nat, k: Key, l: nat) {
    OtherOf(recs, j, k, l) && forall m: nat | OtherOf(recs, j, k, m) :: recs[m].ent.version <= recs[l].ent.version
  }

  ghost predicate BestOther(recs: seq<Rec>, j: nat, k: Key, found: Option<IndexEnt>) {
    && (found.None? <==> forall l: nat :: !OtherOf(recs, j, k, l))
    && (found.Some? ==> exists l: nat :: NewestOther(recs, j, k, l) && recs[l].ent == found.value)
  }

  /** What a scan finds of a key. */
  ghost predicate Finds(dev: seq<byte>, read: nat -> Option<Rec>, hash: Key -> nat, k: Key, found: Option<IndexEnt>) {
    && Replayable(Fresh(dev), hash, Visit(read, 0))
    && |Replay(Fresh(dev), hash, Visit(read, 0)).buckets| == MAX_ENTRIES
    && Find(Replay(Fresh(dev), hash, Visit(read, 0)), hash, k) == found
  }

  lemma ScanFound(dev: seq<byte>, read: nat -> Option<Rec>, hash: Key -> nat, keys: iset<Key>, k: Key)
    requires Positioned(read) && AllSound(Visit(read, 0))
    requires Distinctive(hash, keys) && GoodKeysIn(Visit(read, 0), keys) && (forall a | a in keys :: Clear(hash, k, a))
    ensures Finds(dev, read, hash, k, Best(Visit(read, 0), k, None))
  {
    RecoversSpace(dev, read, hash, 0);
    FreshDrawn(dev, hash, keys, k);
    ReplayFinds(Fresh(dev), hash, Visit(read, 0), keys, k);
  }

  lemma WithoutOne(recs: seq<Rec>, j: nat, bad: Rec, k: Key, recs1: seq<Rec>)
    requires j < |recs| && bad == recs[j].(good := false) && recs1 == recs[j := bad]
    ensures var found := Best(recs1, k, None);
      && (recs[j].ent.key != k ==> found == Best(recs, k, None))
      && BestOther(recs, j, k, found)
  {
    var found := Best(recs1, k, None);
    assert forall l: nat :: OtherOf(recs, j, k, l) <==> l < |recs1| && Of(recs1[l], k);
    if recs[j].ent.key != k {
      BestWithout(recs, recs1, k, None);
    }
    assert recs1[0..] == recs1;
    BestIsBest(recs1, k, 0, None);
    if found.Some? {
      var l :| 0 <= l < |recs1| && recs1[l].ent == found.value && IsBest(recs1, k, l);
      assert OtherOf(recs, j, k, l);
      assert NewestOther(recs, j, k, l);
    }
  }

  lemma OutsideAllSame(dev: seq<byte>, dev1: seq<byte>, read: nat -> Option<Rec>, read1: nat -> Option<Rec>, r: Rec,
                       i: nat, v: seq<byte>)
    requires Damaged(dev, dev1, r, i, v) && Sized(dev1) && read == Blocks(dev) && read1 == Blocks(dev1)
    ensures Restart.SameOutside(read, read1, r.pos, r.ent.Blks())
  {
    forall b: nat | Restart.SpanClear(read, b, r.pos, r.ent.Blks())
      ensures read1(b) == read(b)
    {
      OutsideSame(dev, dev1, r, i, v, b);
    }
  }

  /** After damage to the value of a good record that the scan of a sound image meets, the scan of the
      damaged image finds every other key as before, and of the key of the record the newest other good
      record: nothing when there is none. */
  lemma DamageSkipped(dev: seq<byte>, dev1: seq<byte>, read: nat -> Option<Rec>, read1: nat -> Option<Rec>, r: Rec,
                      i: nat, v: seq<byte>, j: nat, hash: Key -> nat, keys: iset<Key>, k: Key)
    returns (before: Option<IndexEnt>, after: Option<IndexEnt>)
    requires Damaged(dev, dev1, r, i, v) && Sized(dev1) && read == Blocks(dev) && read1 == Blocks(dev1)
    requires r.good && AllSound(Visit(read, 0)) && j < |Visit(read, 0)| && Visit(read, 0)[j] == r
    requires Distinctive(hash, keys) && GoodKeysIn(Visit(read, 0), keys) && (forall a | a in keys :: Clear(hash, k, a))
    ensures Finds(dev, read, hash, k, before) && Finds(dev1, read1, hash, k, after)
    ensures k != r.ent.key ==> after == before
    ensures BestOther(Visit(read, 0), j, k, after)
  {
    BlkIo.BlocksPositioned(dev, read);
    BlkIo.BlocksPositioned(dev1, read1);
    VisitedThere(read, 0, j);
    BlockDamaged(dev, dev1, r, i, v);
    OutsideAllSame(dev, dev1, read, read1, r, i, v);
    before, after := DamagedScan(dev, dev1, read, read1, r, j, r.(good := false), hash, keys, k);
  }

  lemma {:induction false} VisitedThere(read: nat -> Option<Rec>, p: nat, j: nat)
    requires Positioned(read) && j < |Visit(read, p)|
    ensures read(Visit(read, p)[j].pos) == Some(Visit(read, p)[j])
    decreases MAX_LBA_NUM - p
  {
    if read(p).Some? {
      if j > 0 {
        VisitedThere(read, p + read(p).value.ent.Blks(), j - 1);
      }
    } else {
      VisitedThere(read, p + 1, j);
    }
  }

  lemma DamagedScan(dev: seq<byte>, dev1: seq<byte>, read: nat -> Option<Rec>, read1: nat -> Option<Rec>, r: Rec,
                    j: nat, bad: Rec, hash: Key -> nat, keys: iset<Key>, k: Key)
    returns (before: Option<IndexEnt>, after: Option<IndexEnt>)
    requires Positioned(read) && Positioned(read1) && Restart.SameOutside(read, read1, r.pos, r.ent.Blks())
    requires bad == r.(good := false) && read1(r.pos) == Some(bad)
    requires AllSound(Visit(read, 0)) && j < |Visit(read, 0)| && Visit(read, 0)[j] == r
    requires Distinctive(hash, keys) && GoodKeysIn(Visit(read, 0), keys) && (forall a | a in keys :: Clear(hash, k, a))
    ensures Finds(dev, read, hash, k, before) && Finds(dev1, read1, hash, k, after)
    ensures k != r.ent.key ==> after == before
    ensures BestOther(Visit(read, 0), j, k, after)
  {
    var recs, recs1 := Visit(read, 0), Visit(read1, 0);
    VisitDamaged(read, read1, r, 0, j, bad, recs);
    assert AllSound(recs1) by {
      assert SoundRec(recs[j]);
    }
    ScanFound(dev, read, hash, keys, k);
    ScanFound(dev1, read1, hash, keys, k);
    WithoutOne(recs, j, bad, k, recs1);
    before, after := Best(recs, k, None), Best(recs1, k, None);
  }
}
