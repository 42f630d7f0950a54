/** The k-mer index: an open-addressing hash table with linear probing from
    home slot key % size, mapping each k-mer key to the ascending list of
    positions at which it occurs. */
module KmerIndex {
  import opened Errors
  import opened KmerEncoding
  import opened KmerWindows
  import opened SlotTable

  class KmerHashTable {
    var table: array<Slot>
    var size: int
    const K: int
    var uniqueKeysCount: int

    ghost predicate Valid()
      reads this, table
    {
      && 1 <= K <= 32
      && size == table.Length
      && Inv(table[..], uniqueKeysCount)
    }

    /** The abstract index the table holds: key -> positions in insertion order. */
    ghost function Contents(): map<nat, seq<int>>
      reads this, table
    {
      ContentsOf(table[..])
    }

    constructor (initialSize: int, k: int)
      requires initialSize >= 1 && 1 <= k <= 32
      ensures Valid() && fresh(table)
      ensures size == initialSize && K == k && Contents() == map[]
    {
      size := initialSize;
      K := k;
      uniqueKeysCount := 0;
      table := new Slot[initialSize](_ => Empty);
      new;
      EmptyInv(table[..]);
    }

    /** The slot where key is stored or would be stored, -1 when a whole
        round of probing meets only other keys. */
    method FindSlotForInsert(key: nat) returns (r: int)
      requires 1 <= size == table.Length
      ensures -1 <= r < size
      ensures r == -1 ==> forall i :: 0 <= i < size ==> table[i].Full? && table[i].key != key
      ensures r >= 0 ==> table[r].Empty? || table[r].key == key
      ensures r >= 0 ==> forall i :: 0 <= i < size && Dist(Hash(key, size), i, size) < Dist(Hash(key, size), r, size) ==>
        table[i].Full? && table[i].key != key
    {
      var idx := Hash(key, size);
      var start := idx;
      ghost var d := 0;
      while table[idx].Full? && table[idx].key != key
        invariant 0 <= idx < size && 0 <= d < size
        invariant Dist(start, idx, size) == d
        invariant forall i :: 0 <= i < size && Dist(start, i, size) < d ==> table[i].Full? && table[i].key != key
        decreases size - d
      {
        ProbeStep(start, idx, d, size);
        idx := (idx + 1) % size;
        d := d + 1;
        if idx == start {
          return -1;
        }
      }
      return idx;
    }

    /** Moves every entry into a fresh table of newSize slots. */
    method Rehash(newSize: int)
      requires Valid() && size <= newSize
      modifies this
      ensures Valid() && fresh(table)
      ensures size == newSize && Contents() == old(Contents())
    {
      var oldTable := table;
      var oldSize := size;
      ghost var oldSlots := table[..];
      ghost var oldCount := uniqueKeysCount;
      table := new Slot[newSize](_ => Empty);
      size := newSize;
      uniqueKeysCount := 0;
      EmptyInv(table[..]);
      for i := 0 to oldSize
        invariant fresh(table) && Valid() && size == newSize
        invariant oldTable[..] == oldSlots
        invariant Contents() == ContentsOf(oldSlots[..i])
        invariant uniqueKeysCount <= i
      {
        PrefixStep(oldSlots, oldCount, i);
        if oldTable[i].Full? {
          PlaceEntry(oldTable[i].key, oldTable[i].positions);
        }
      }
      assert oldSlots[..oldSize] == oldSlots;
    }

    /** Rehash's step for one entry of the old table: the key is not yet in
        the new table, so its probe ends at an empty slot, which takes it. */
    method PlaceEntry(key: nat, ps: seq<int>)
      requires Valid() && key !in Contents() && ps != [] && uniqueKeysCount < size
      modifies table, `uniqueKeysCount
      ensures Valid()
      ensures Contents() == old(Contents())[key := ps]
      ensures uniqueKeysCount == old(uniqueKeysCount) + 1
    {
      FreeSlot(table[..], uniqueKeysCount);
      var slot := FindSlotForInsert(key);
      // the source's "rehash failure" cannot happen: a slot is free
      assert slot != -1;
      // the key is not stored yet, so the slot found is empty
      SlotOwner(table[..], uniqueKeysCount, slot);
      FillSlot(slot, key, ps);
    }

    /** Records that key occurs at pos, first growing the table when more
        than 70% of its slots are taken. */
    method InsertInternal(key: nat, pos: int)
      requires Valid()
      modifies this, table
      ensures Valid() && (table == old(table) || fresh(table))
      ensures Contents() == old(Contents())[key := Lookup(old(Contents()), key) + [pos]]
      ensures size == if 10 * old(uniqueKeysCount) > 7 * old(size) then 2 * old(size) else old(size)
    {
      GrowIfNeeded();
      Record(key, pos);
    }

    /** insert_internal's growth check: doubles the table when more than 70%
        of its slots are taken, after which a slot is free. */
    method GrowIfNeeded()
      requires Valid()
      modifies this
      ensures Valid() && (table == old(table) || fresh(table))
      ensures Contents() == old(Contents())
      ensures size == if 10 * old(uniqueKeysCount) > 7 * old(size) then 2 * old(size) else old(size)
      ensures 10 * uniqueKeysCount <= 7 * size && uniqueKeysCount < size
    {
      CountBound(table[..], uniqueKeysCount);
      if 10 * uniqueKeysCount > 7 * size {
        Rehash(size * 2);
      }
    }

    /** insert_internal after the growth check: appends pos to key's list, or
        stores key with the list [pos] in the free slot its probe reaches. */
    method Record(key: nat, pos: int)
      requires Valid() && uniqueKeysCount < size
      modifies table, `uniqueKeysCount
      ensures Valid()
      ensures Contents() == old(Contents())[key := Lookup(old(Contents()), key) + [pos]]
    {
      FreeSlot(table[..], uniqueKeysCount);
      var slot := FindSlotForInsert(key);
      // the source's "Hash table full" cannot happen: a slot is free
      assert slot != -1;
      if table[slot].Empty? {
        FillSlot(slot, key, [pos]);
        assert Lookup(old(Contents()), key) + [pos] == [pos];
      } else {
        AppendPosition(slot, key, pos);
      }
    }

    /** Stores key with positions ps in the empty slot its probe reached. */
    method FillSlot(slot: int, key: nat, ps: seq<int>)
      requires Valid() && 0 <= slot < size && table[slot].Empty? && ps != []
      requires forall i :: 0 <= i < size && Dist(Hash(key, size), i, size) < Dist(Hash(key, size), slot, size) ==>
        table[i].Full? && table[i].key != key
      modifies table, `uniqueKeysCount
      ensures Valid()
      ensures key !in old(Contents()) && Contents() == old(Contents())[key := ps]
      ensures uniqueKeysCount == old(uniqueKeysCount) + 1
    {
      PlaceNew(table[..], uniqueKeysCount, key, ps, slot);
      table[slot] := Full(key, ps);
      uniqueKeysCount := uniqueKeysCount + 1;
    }

    /** Appends pos to the position list of key, which a full slot holds. */
    method AppendPosition(slot: int, ghost key: nat, pos: int)
      requires Valid() && 0 <= slot < size && table[slot].Full? && table[slot].key == key
      modifies table
      ensures Valid()
      ensures key in old(Contents()) && Contents() == old(Contents())[key := old(Contents())[key] + [pos]]
    {
      var ps := table[slot].positions + [pos];
      ReplacePositions(table[..], uniqueKeysCount, slot, ps);
      table[slot] := Full(table[slot].key, ps);
    }

    /** Rebuilds the index of genome from scratch at the current capacity. */
    method BuildIndex(genome: seq<char>)
      requires Valid()
      modifies this, table
      ensures Valid() && fresh(table)
      ensures Contents() == IndexOf(genome, K, NumWindows(genome, K))
      ensures |genome| < K ==> Contents() == map[]
      ensures size >= old(size)
      ensures |genome| < K ==> size == old(size)
    {
      table := new Slot[size](_ => Empty);
      uniqueKeysCount := 0;
      EmptyInv(table[..]);
      if |genome| < K {
        return;
      }
      for i := 0 to |genome| - K + 1
        invariant Valid() && fresh(table)
        invariant Contents() == IndexOf(genome, K, i)
        invariant size >= old(size)
      {
        var e := EncodeKmer(genome[i..i + K], K);
        IndexOfStep(genome, K, i);
        if e.Ok? {
          InsertInternal(e.value, i);
        }
      }
    }

    /** The positions stored for a k-mer; empty for a wrong length, a
        character outside {A,C,G,T}, or a k-mer that is not stored. */
    method Query(kmerQuery: seq<char>) returns (r: seq<int>)
      requires Valid()
      ensures r == if |kmerQuery| == K && AllBases(kmerQuery) then Lookup(Contents(), Encode(kmerQuery)) else []
    {
      if |kmerQuery| != K {
        return [];
      }
      var e := EncodeKmer(kmerQuery, K);
      if e.Err? {
        return [];
      }
      var key := e.value;
      var idx := Hash(key, size);
      var start := idx;
      ghost var d := 0;
      while table[idx].Full?
        invariant 0 <= idx < size && 0 <= d < size
        invariant Dist(start, idx, size) == d
        invariant forall i :: 0 <= i < size && Dist(start, i, size) < d ==> table[i].Full? && table[i].key != key
        decreases size - d
      {
        if table[idx].key == key {
          SlotOwner(table[..], uniqueKeysCount, idx);
          return table[idx].positions;
        }
        ProbeStep(start, idx, d, size);
        idx := (idx + 1) % size;
        d := d + 1;
        if idx == start {
          AbsentWhenAllOthers(table[..], uniqueKeysCount, key);
          return [];
        }
      }
      AbsentBeforeEmpty(table[..], uniqueKeysCount, key, idx);
      return [];
    }

    /** The number of positions stored under each key. */
    method GetKmerCounts() returns (counts: map<nat, int>)
      requires Valid()
      ensures counts == Counts(Contents())
      ensures forall key :: key in counts ==> counts[key] >= 1
    {
      ghost var slots := table[..];
      counts := map[];
      for i := 0 to size
        invariant counts == Counts(ContentsOf(slots[..i]))
      {
        PrefixStep(slots, uniqueKeysCount, i);
        if table[i].Full? {
          counts := counts[table[i].key := |table[i].positions|];
        }
      }
      assert slots[..size] == slots;
    }

    method GetUniqueCount() returns (n: int)
      requires Valid()
      ensures n == |Contents()| == |OccupiedOf(table[..])|
    {
      return uniqueKeysCount;
    }
  }

  /** The constructor's check on k: KOutOfRange unless 1 <= k <= 32, otherwise
      an empty table of initialSize slots. The source does not check
      initialSize; a table of 0 slots would take its home slots modulo 0. */
  method NewTable(initialSize: int, k: int) returns (r: Result<KmerHashTable>)
    requires initialSize >= 1
    ensures r.Err? <==> k < 1 || k > 32
    ensures r.Err? ==> r.error == KOutOfRange
    ensures r.Ok? ==> fresh(r.value) && fresh(r.value.table) && r.value.Valid()
    ensures r.Ok? ==> r.value.K == k && r.value.size == initialSize && r.value.Contents() == map[]
  {
    if k <= 0 || k > 32 {
      return Err(KOutOfRange);
    }
    var t := new KmerHashTable(initialSize, k);
    return Ok(t);
  }
}
