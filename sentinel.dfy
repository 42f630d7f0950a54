/** The source's reading of a slot: the key field holds 2^64 - 1 for an
    empty slot, so a slot is empty exactly when its key equals that value.
    The model's slots carry their own tag instead; this module states where
    the two readings agree and where they do not. */
module Sentinel {
  import opened KmerEncoding
  import opened SlotTable
  import opened KmerWindows

  /** A slot as the source lays it out: a key and a position list. */
  datatype RawSlot = RawSlot(key: nat, positions: seq<int>)

  /** How the source's probing and get_kmer_counts read a slot. */
  function ReadRaw(s: RawSlot): (r: Slot)
    ensures r.Empty? <==> s.key == EmptyKey
    ensures r.Full? ==> r == Full(s.key, s.positions)
  {
    if s.key == EmptyKey then Empty else Full(s.key, s.positions)
  }

  /** For k <= 31 a stored key never looks empty: the source's slot and the
      tagged slot agree. */
  lemma ReadStoredKey(kmer: seq<char>, ps: seq<int>)
    requires AllBases(kmer) && |kmer| <= 31
    ensures ReadRaw(RawSlot(Encode(kmer), ps)) == Full(Encode(kmer), ps)
  {
    KeyBelowSentinel(kmer);
  }

  /** At k = 32 the source stores the key of 32 'T's into a slot and counts a
      new key, but the slot then reads as empty: the entry is lost to
      query and get_kmer_counts and the slot can be taken again. */
  lemma StoredSentinelReadsEmpty(ps: seq<int>)
    ensures |AllT(32)| == 32 && AllBases(AllT(32))
    ensures ReadRaw(RawSlot(Encode(AllT(32)), ps)).Empty?
  {
    SentinelCollision();
  }

  /** The source's table as laid out: raw slots and unique_keys_count. */
  datatype RawTable = RawTable(slots: seq<RawSlot>, count: nat)

  /** insert_internal on a slot that reads as empty: the key is written, the
      count goes up by one and pos is appended to the slot's list. The slot
      then reads as holding the key unless the key is the empty-slot value;
      no other slot changes. */
  function RawFill(t: RawTable, idx: nat, key: nat, pos: int): (r: RawTable)
    requires idx < |t.slots|
    ensures |r.slots| == |t.slots| && r.count == t.count + 1
    ensures ReadRaw(r.slots[idx]) == if key == EmptyKey then Empty else Full(key, t.slots[idx].positions + [pos])
    ensures forall j :: 0 <= j < |t.slots| && j != idx ==> ReadRaw(r.slots[j]) == ReadRaw(t.slots[j])
  {
    RawTable(t.slots[idx := RawSlot(key, t.slots[idx].positions + [pos])], t.count + 1)
  }

  /** At k = 32, filling an empty slot with the key of 32 'T's counts one more
      key while every slot reads exactly as before: the count and the slots
      that read full no longer agree. The slot still reads as empty, so the
      next 32-'T' window is written there again and counted again. */
  lemma SentinelFillInvisible(t: RawTable, idx: nat, pos: int)
    requires idx < |t.slots| && ReadRaw(t.slots[idx]).Empty?
    ensures var r := RawFill(t, idx, Encode(AllT(32)), pos);
      r.count == t.count + 1 &&
      forall j :: 0 <= j < |t.slots| ==> ReadRaw(r.slots[j]) == ReadRaw(t.slots[j])
  {
    SentinelCollision();
  }

  /** The 32-'T' fill leaves its offset p in a slot that still reads as
      empty. The next key whose probe stops there takes the slot over with
      that stale list, so a query for that key also returns p, where the
      key does not occur. */
  lemma StaleListTakenOver(t: RawTable, idx: nat, p: int, key: nat, pos: int)
    requires idx < |t.slots| && ReadRaw(t.slots[idx]).Empty? && t.slots[idx].positions == []
    requires key != EmptyKey
    ensures var r := RawFill(RawFill(t, idx, Encode(AllT(32)), p), idx, key, pos);
      ReadRaw(r.slots[idx]) == Full(key, [p, pos])
  {
    SentinelCollision();
    var r1 := RawFill(t, idx, Encode(AllT(32)), p);
    assert r1.slots[idx].positions == [p];
  }

  /** With tagged slots the entry is kept: indexing the genome of 32 'T's at
      k = 32 stores position 0 under the key 2^64 - 1, which the table's
      Query then returns. */
  lemma AllTIndexedAtK32()
    ensures NumWindows(AllT(32), 32) == 1
    ensures IndexOf(AllT(32), 32, 1) == map[EmptyKey := [0]]
  {
    var g := AllT(32);
    assert g[0..0 + 32] == g;
    SentinelCollision();
    assert IndexOf(g, 32, 0) == map[];
    assert Lookup(map[], EmptyKey) == [];
    assert IndexOf(g, 32, 1) == map[][Encode(g) := [] + [0]];
    assert [] + [0] == [0] && Encode(g) == EmptyKey;
    assert map[][Encode(g) := [0]] == map[EmptyKey := [0]];
  }
}
