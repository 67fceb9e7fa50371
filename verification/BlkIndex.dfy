/** The hash index of dp/core/blk_index.c: buckets of chained entries, searched with a comparison
    that only looks at the length of the key asked for. */
module BlkIndex {
  import opened Common
  import opened Words

  const LBA_SIZE: nat := 512
  const MAX_LBA_NUM: nat := 1953125
  const MAX_ENTRIES: nat := 4096
  const MAX_KEY_LEN: nat := 108
  const META_SZ: nat := 128
  const DATA_SZ: nat := LBA_SIZE - META_SZ

  /** A key is a C string without its terminator. */
  type Key = seq<byte>

  /** CALC_NUMBLKS: the first block also holds the metadata. */
  function NumBlks(len: nat): (n: nat)
    ensures n >= 1
  {
    if len > DATA_SZ then 1 + (len - DATA_SZ + LBA_SIZE - 1) / LBA_SIZE else 1
  }

  /** struct index_ent without its chain pointer. */
  datatype IndexEnt = IndexEnt(key: Key, lba: int, valLen: nat, crc: nat, version: nat)
  {
    function Blks(): nat {
      NumBlks(valLen)
    }
    predicate Has(b: int) {
      lba <= b < lba + Blks()
    }
  }

  /** strncmp(stored, key, strlen(key)) == 0 */
  predicate Matches(stored: Key, key: Key) {
    key <= stored
  }

  /** key_lookup within a bucket: the first matching entry of the chain. */
  function Lookup(chain: seq<IndexEnt>, key: Key): Option<IndexEnt> {
    if chain == [] then None
    else if Matches(chain[0].key, key) then Some(chain[0])
    else Lookup(chain[1..], key)
  }

  /** What it should find: the entry of that very key. */
  function ExactLookup(chain: seq<IndexEnt>, key: Key): Option<IndexEnt> {
    if chain == [] then None
    else if chain[0].key == key then Some(chain[0])
    else ExactLookup(chain[1..], key)
  }

  /** An entry whose key properly extends `key` comes before any entry of `key` itself. */
  predicate Shadowed(chain: seq<IndexEnt>, key: Key) {
    chain != [] && chain[0].key != key && (key < chain[0].key || Shadowed(chain[1..], key))
  }

  /** The lookup finds the entry of the key asked for, or nothing, exactly when no longer key with the
      same beginning stands in front of it. */
  lemma {:induction false} LookupExactly(chain: seq<IndexEnt>, key: Key)
    ensures Lookup(chain, key) == ExactLookup(chain, key) <==> !Shadowed(chain, key)
    decreases |chain|
  {
    if chain != [] {
      LookupExactly(chain[1..], key);
      if key < chain[0].key {
        ExactHasKey(chain[1..], key);
      }
    }
  }

  lemma {:induction false} ExactHasKey(chain: seq<IndexEnt>, key: Key)
    ensures ExactLookup(chain, key).Some? ==> ExactLookup(chain, key).value.key == key
    decreases |chain|
  {
    if chain != [] {
      ExactHasKey(chain[1..], key);
    }
  }

  /** update_index within a bucket: replace the first matching entry, or append. */
  function UpdateChain(chain: seq<IndexEnt>, meta: IndexEnt): seq<IndexEnt> {
    if chain == [] then [meta]
    else if Matches(chain[0].key, meta.key) then [meta] + chain[1..]
    else [chain[0]] + UpdateChain(chain[1..], meta)
  }

  /** No two keys of the chain have the same beginning, and neither has `key` with any of them. */
  ghost predicate Unambiguous(chain: seq<IndexEnt>, key: Key) {
    forall i | 0 <= i < |chain| :: chain[i].key == key || (!(chain[i].key <= key) && !(key <= chain[i].key))
  }

  /** Every key stands once in its chain, and none is a beginning of another. */
  ghost predicate PrefixFree(chain: seq<IndexEnt>) {
    forall i, j | 0 <= i < j < |chain| :: !(chain[i].key <= chain[j].key) && !(chain[j].key <= chain[i].key)
  }

  lemma {:induction false} UnambiguousNotShadowed(chain: seq<IndexEnt>, key: Key)
    requires Unambiguous(chain, key)
    ensures !Shadowed(chain, key) && Lookup(chain, key) == ExactLookup(chain, key)
    decreases |chain|
  {
    if chain != [] {
      UnambiguousNotShadowed(chain[1..], key);
    }
  }

  /** After an update the entry is found under its key, and every other key finds what it found before. */
  lemma {:induction false} UpdateThenLookup(chain: seq<IndexEnt>, meta: IndexEnt, key: Key)
    requires Unambiguous(chain, meta.key) && PrefixFree(chain) && (key == meta.key || !(key <= meta.key))
    ensures Lookup(UpdateChain(chain, meta), key) ==
              if key == meta.key then Some(meta) else Lookup(chain, key)
    decreases |chain|
  {
    var r := UpdateChain(chain, meta);
    if chain == [] {
      assert r[1..] == [];
    } else if Matches(chain[0].key, meta.key) {
      assert chain[0].key == meta.key;
      assert r[1..] == chain[1..];
    } else {
      assert r[1..] == UpdateChain(chain[1..], meta);
      assert PrefixFree(chain[1..]);
      UpdateThenLookup(chain[1..], meta, key);
    }
  }

  lemma {:induction false} UpdateChainKeys(chain: seq<IndexEnt>, meta: IndexEnt, i: nat)
    requires Unambiguous(chain, meta.key) && i < |UpdateChain(chain, meta)|
    ensures var r := UpdateChain(chain, meta);
      && (r[i] == meta || (i < |chain| && r[i] == chain[i]))
      && (i < |chain| ==> r[i].key == chain[i].key)
      && |chain| <= |r|
      && (i == |chain| ==> r[i] == meta && forall j | 0 <= j < |chain| :: chain[j].key != meta.key)
    decreases |chain|
  {
    if chain != [] && !Matches(chain[0].key, meta.key) {
      assert Unambiguous(chain[1..], meta.key);
      if i > 0 {
        UpdateChainKeys(chain[1..], meta, i - 1);
      } else {
        UpdateChainLonger(chain[1..], meta);
      }
    }
  }

  lemma {:induction false} UpdateChainLonger(chain: seq<IndexEnt>, meta: IndexEnt)
    ensures |chain| <= |UpdateChain(chain, meta)| <= |chain| + 1
    decreases |chain|
  {
    if chain != [] {
      UpdateChainLonger(chain[1..], meta);
    }
  }

  lemma UpdatePrefixFree(chain: seq<IndexEnt>, meta: IndexEnt)
    requires Unambiguous(chain, meta.key) && PrefixFree(chain)
    ensures PrefixFree(UpdateChain(chain, meta))
  {
    var r := UpdateChain(chain, meta);
    UpdateChainLonger(chain, meta);
    forall i, j | 0 <= i < j < |r|
      ensures !(r[i].key <= r[j].key) && !(r[j].key <= r[i].key)
    {
      UpdateChainKeys(chain, meta, i);
      UpdateChainKeys(chain, meta, j);
    }
  }

  // ---------------------------------------------------------------------------------------------
  // What an update does to other keys
  // ---------------------------------------------------------------------------------------------

  ghost predicate DistinctKeys(chain: seq<IndexEnt>) {
    forall i, j | 0 <= i < j < |chain| :: chain[i].key != chain[j].key
  }

  lemma {:induction false} LookupMember(chain: seq<IndexEnt>, key: Key)
    ensures Lookup(chain, key).Some? ==> exists i | 0 <= i < |chain| :: chain[i] == Lookup(chain, key).value
    ensures ExactLookup(chain, key).Some? ==> exists i | 0 <= i < |chain| :: chain[i] == ExactLookup(chain, key).value
    decreases |chain|
  {
    if chain != [] {
      LookupMember(chain[1..], key);
      assert forall i | 0 <= i < |chain| - 1 :: chain[1..][i] == chain[i + 1];
    }
  }

  /** With distinct keys, what is found behind the first entry is not the first entry. */
  lemma FoundBehind(chain: seq<IndexEnt>, key: Key)
    requires chain != [] && DistinctKeys(chain)
    ensures DistinctKeys(chain[1..])
    ensures Lookup(chain[1..], key) != Some(chain[0]) && ExactLookup(chain[1..], key) != Some(chain[0])
  {
    LookupMember(chain[1..], key);
    forall i | 0 <= i < |chain| - 1
      ensures chain[1..][i].key != chain[0].key
    {
      assert chain[1..][i] == chain[i + 1];
    }
  }

  /** An update leaves the entry of another key in place exactly when that key is not the first of the chain
      that begins with the key written. */
  lemma {:induction false} EntryKeptExactly(chain: seq<IndexEnt>, f: IndexEnt, k: Key)
    requires DistinctKeys(chain) && k != f.key
    ensures ExactLookup(UpdateChain(chain, f), k) == ExactLookup(chain, k) <==>
              !(Lookup(chain, f.key).Some? && Lookup(chain, f.key).value.key == k)
    decreases |chain|
  {
    var r := UpdateChain(chain, f);
    if chain == [] {
      assert r[1..] == [];
    } else {
      FoundBehind(chain, k);
      FoundBehind(chain, f.key);
      LookupMember(chain[1..], f.key);
      if Matches(chain[0].key, f.key) {
        assert r[1..] == chain[1..];
        ExactHasKey(chain[1..], k);
        if chain[0].key == k {
          NoneBehind(chain, k);
        }
      } else {
        assert r[1..] == UpdateChain(chain[1..], f);
        EntryKeptExactly(chain[1..], f, k);
      }
    }
  }

  lemma NoneBehind(chain: seq<IndexEnt>, k: Key)
    requires chain != [] && DistinctKeys(chain) && chain[0].key == k
    ensures ExactLookup(chain[1..], k) == None
  {
    LookupMember(chain[1..], k);
    ExactHasKey(chain[1..], k);
    if ExactLookup(chain[1..], k).Some? {
      assert false;
    }
  }

  lemma {:induction false} PresentExactly(chain: seq<IndexEnt>, key: Key)
    ensures ExactLookup(chain, key).Some? <==> exists i | 0 <= i < |chain| :: chain[i].key == key
    decreases |chain|
  {
    if chain != [] {
      PresentExactly(chain[1..], key);
      assert forall i | 0 <= i < |chain| - 1 :: chain[1..][i] == chain[i + 1];
    }
  }

  lemma {:induction false} UpdatedKeys(chain: seq<IndexEnt>, f: IndexEnt, i: nat)
    requires i < |UpdateChain(chain, f)|
    ensures UpdateChain(chain, f)[i] == f || (i < |chain| && UpdateChain(chain, f)[i] == chain[i])
    decreases |chain|
  {
    if chain != [] && !Matches(chain[0].key, f.key) && i > 0 {
      UpdatedKeys(chain[1..], f, i - 1);
    }
  }

  lemma DistinctCons(e: IndexEnt, rest: seq<IndexEnt>, chain: seq<IndexEnt>)
    requires chain == [e] + rest
    ensures DistinctKeys(chain) <==> DistinctKeys(rest) && forall i | 0 <= i < |rest| :: rest[i].key != e.key
  {
    assert forall i | 0 <= i < |rest| :: rest[i] == chain[i + 1];
    if DistinctKeys(chain) {
      forall i | 0 <= i < |rest|
        ensures rest[i].key != e.key
      {
        assert chain[0] == e && chain[i + 1] == rest[i];
      }
    }
  }

  /** The keys of a chain stay distinct exactly when the key written was not there behind a longer one that
      begins with it. */
  lemma {:induction false} DistinctKeptExactly(chain: seq<IndexEnt>, f: IndexEnt)
    requires DistinctKeys(chain)
    ensures DistinctKeys(UpdateChain(chain, f)) <==> !(ExactLookup(chain, f.key).Some? && Shadowed(chain, f.key))
    decreases |chain|
  {
    if chain != [] {
      var rest := chain[1..];
      DistinctCons(chain[0], rest, chain);
      PresentExactly(rest, f.key);
      if Matches(chain[0].key, f.key) {
        DistinctCons(f, rest, UpdateChain(chain, f));
      } else {
        DistinctKeptExactly(rest, f);
        var r := UpdateChain(rest, f);
        forall i | 0 <= i < |r|
          ensures r[i].key != chain[0].key
        {
          UpdatedKeys(rest, f, i);
        }
        DistinctCons(chain[0], r, UpdateChain(chain, f));
      }
    }
  }

  /** An update touches what another key finds: it finds the entry that is displaced, or it has found
      nothing and the new entry at the end of the chain begins with it. */
  predicate Disturbed(chain: seq<IndexEnt>, f: IndexEnt, k: Key) {
    if Lookup(chain, f.key).Some? then Lookup(chain, k) == Lookup(chain, f.key)
    else Lookup(chain, k).None? && k <= f.key
  }

  /** For any keys: another key finds what it found before exactly when it is not touched. */
  lemma {:induction false} FoundKeptExactly(chain: seq<IndexEnt>, f: IndexEnt, k: Key)
    requires DistinctKeys(chain) && k != f.key && Lookup(chain, f.key) != Some(f)
    ensures Lookup(UpdateChain(chain, f), k) == Lookup(chain, k) <==> !Disturbed(chain, f, k)
    decreases |chain|
  {
    var r := UpdateChain(chain, f);
    if chain == [] {
      assert r[1..] == [];
    } else {
      FoundBehind(chain, k);
      FoundBehind(chain, f.key);
      if Matches(chain[0].key, f.key) {
        assert r[1..] == chain[1..];
      } else {
        assert r[1..] == UpdateChain(chain[1..], f);
        if !Matches(chain[0].key, k) {
          FoundKeptExactly(chain[1..], f, k);
        }
      }
    }
  }

  /** For any keys: the key written finds the new entry. */
  lemma {:induction false} WrittenFound(chain: seq<IndexEnt>, f: IndexEnt)
    ensures Lookup(UpdateChain(chain, f), f.key) == Some(f)
    decreases |chain|
  {
    var r := UpdateChain(chain, f);
    if chain != [] && !Matches(chain[0].key, f.key) {
      assert r[1..] == UpdateChain(chain[1..], f);
      WrittenFound(chain[1..], f);
    }
  }

  // ---------------------------------------------------------------------------------------------
  // How many entries claim a block
  // ---------------------------------------------------------------------------------------------

  function Holders(chain: seq<IndexEnt>, b: int): nat {
    if chain == [] then 0 else (if chain[0].Has(b) then 1 else 0) + Holders(chain[1..], b)
  }

  function Claims(e: Option<IndexEnt>, b: int): nat {
    if e.Some? && e.value.Has(b) then 1 else 0
  }

  /** Replacing an entry moves exactly its claim; whether or not the keys are equal. */
  lemma {:induction false} UpdateHolders(chain: seq<IndexEnt>, meta: IndexEnt, b: int)
    ensures Holders(UpdateChain(chain, meta), b) + Claims(Lookup(chain, meta.key), b) ==
              Holders(chain, b) + Claims(Some(meta), b)
    decreases |chain|
  {
    var r := UpdateChain(chain, meta);
    if chain == [] {
      assert r[1..] == [];
    } else if Matches(chain[0].key, meta.key) {
      assert r[1..] == chain[1..];
    } else {
      assert r[1..] == UpdateChain(chain[1..], meta);
      UpdateHolders(chain[1..], meta, b);
    }
  }

  /** The same over all buckets. */
  function AllHolders(buckets: seq<seq<IndexEnt>>, b: int): nat {
    if buckets == [] then 0 else Holders(buckets[0], b) + AllHolders(buckets[1..], b)
  }

  lemma {:induction false} AllHoldersUpdate(buckets: seq<seq<IndexEnt>>, h: nat, chain: seq<IndexEnt>, b: int)
    requires h < |buckets|
    ensures AllHolders(buckets[h := chain], b) + Holders(buckets[h], b) ==
              AllHolders(buckets, b) + Holders(chain, b)
    decreases h
  {
    var r := buckets[h := chain];
    if h == 0 {
      assert r[1..] == buckets[1..];
    } else {
      assert r[1..] == buckets[1..][h - 1 := chain];
      AllHoldersUpdate(buckets[1..], h - 1, chain, b);
    }
  }

  lemma {:induction false} HoldersAtLeast(chain: seq<IndexEnt>, key: Key, b: int)
    ensures Claims(Lookup(chain, key), b) <= Holders(chain, b)
    decreases |chain|
  {
    if chain != [] {
      HoldersAtLeast(chain[1..], key, b);
    }
  }

  lemma {:induction false} AllHoldersAtLeast(buckets: seq<seq<IndexEnt>>, h: nat, b: int)
    requires h < |buckets|
    ensures Holders(buckets[h], b) <= AllHolders(buckets, b)
    decreases h
  {
    if h > 0 {
      AllHoldersAtLeast(buckets[1..], h - 1, b);
    }
  }

  lemma {:induction false} AllHoldersEmpty(buckets: seq<seq<IndexEnt>>, b: int)
    requires forall i | 0 <= i < |buckets| :: buckets[i] == []
    ensures AllHolders(buckets, b) == 0
    decreases |buckets|
  {
    if buckets != [] {
      AllHoldersEmpty(buckets[1..], b);
    }
  }

  lemma {:induction false} HoldersOf(chain: seq<IndexEnt>, i: nat, b: int)
    requires i < |chain| && chain[i].Has(b)
    ensures Holders(chain, b) >= 1
    decreases i
  {
    if i > 0 {
      HoldersOf(chain[1..], i - 1, b);
    }
  }

  lemma {:induction false} HolderIn(chain: seq<IndexEnt>, b: int) returns (i: nat)
    requires Holders(chain, b) >= 1
    ensures i < |chain| && chain[i].Has(b)
    decreases |chain|
  {
    i := 0;
    if !chain[0].Has(b) {
      var j := HolderIn(chain[1..], b);
      i := j + 1;
    }
  }

  lemma {:induction false} HolderAmong(buckets: seq<seq<IndexEnt>>, b: int) returns (h: nat, i: nat)
    requires AllHolders(buckets, b) >= 1
    ensures h < |buckets| && i < |buckets[h]| && buckets[h][i].Has(b)
    decreases |buckets|
  {
    if Holders(buckets[0], b) >= 1 {
      h := 0;
      i := HolderIn(buckets[0], b);
    } else {
      var g, j := HolderAmong(buckets[1..], b);
      h, i := g + 1, j;
    }
  }

  // ---------------------------------------------------------------------------------------------
  // Which entries a chain has
  // ---------------------------------------------------------------------------------------------

  lemma {:induction false} MemberFound(chain: seq<IndexEnt>, e: IndexEnt)
    requires PrefixFree(chain) && e in chain
    ensures Lookup(chain, e.key) == Some(e)
    decreases |chain|
  {
    if chain[0] != e {
      var i :| 0 <= i < |chain| && chain[i] == e;
      assert e == chain[1..][i - 1] && PrefixFree(chain[1..]);
      MemberFound(chain[1..], e);
    }
  }

  /** An update replaces the entry of its key, if there is one. */
  lemma {:induction false} UpdateMembers(chain: seq<IndexEnt>, f: IndexEnt, e: IndexEnt)
    requires PrefixFree(chain) && Unambiguous(chain, f.key)
    ensures e in UpdateChain(chain, f) <==> e == f || (e in chain && e.key != f.key)
    decreases |chain|
  {
    var r := UpdateChain(chain, f);
    if chain != [] {
      var rest := chain[1..];
      assert chain == [chain[0]] + rest && PrefixFree(rest);
      if Matches(chain[0].key, f.key) {
        assert chain[0].key == f.key && r == [f] + rest;
        assert forall i | 0 <= i < |rest| :: rest[i] == chain[i + 1];
      } else {
        assert r == [chain[0]] + UpdateChain(rest, f);
        UpdateMembers(rest, f, e);
      }
    }
  }
}
