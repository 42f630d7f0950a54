/** The slot array of the k-mer index as a value: the probing geometry of
    linear probing from home slot key % n, and the invariant that ties the
    slots to the key -> positions map they represent, with one lemma per kind
    of update that keeps it. */
module SlotTable {

  /** A table slot. The source marks an empty slot with the key 2^64 - 1;
      here emptiness is a tag of its own (see KeyBelowSentinel and
      SentinelCollision for when the two readings differ). */
  datatype Slot = Empty | Full(key: nat, positions: seq<int>)

  /** Home slot of a key in a table of n slots. */
  function Hash(key: nat, n: int): (h: nat)
    requires n >= 1
    ensures h < n
  {
    key % n
  }

  /** How many steps linear probing takes, wrapping around n slots, to get
      from slot h to slot i. */
  function Dist(h: int, i: int, n: int): int {
    if i >= h then i - h else i + n - h
  }

  /** One probing step, idx := (idx + 1) % n, advances the distance from the
      home slot h by one and is back at h exactly after n steps. */
  lemma ProbeStep(h: int, idx: int, d: int, n: int)
    requires 0 <= h < n && 0 <= idx < n && 0 <= d < n && Dist(h, idx, n) == d
    ensures 0 <= (idx + 1) % n < n
    ensures (idx + 1) % n == h <==> d + 1 == n
    ensures d + 1 < n ==> Dist(h, (idx + 1) % n, n) == d + 1
    ensures forall i :: 0 <= i < n && Dist(h, i, n) == d ==> i == idx
  {
    if idx + 1 < n {
      assert (idx + 1) % n == idx + 1;
    } else {
      assert (idx + 1) % n == 0;
    }
  }

  /** The slots s hold exactly the entries of contents; loc gives each key's slot. */
  ghost predicate Holds(s: seq<Slot>, contents: map<nat, seq<int>>, loc: map<nat, nat>) {
    && loc.Keys == contents.Keys
    && (forall key :: key in loc ==> loc[key] < |s| && s[loc[key]] == Full(key, contents[key]))
    && (forall i :: 0 <= i < |s| && s[i].Full? ==> s[i].key in loc && loc[s[i].key] == i)
  }

  /** No stored key has an empty slot between its home slot and its own slot. */
  ghost predicate NoGaps(s: seq<Slot>, loc: map<nat, nat>)
    requires |s| >= 1
  {
    forall key, i {:trigger Dist(Hash(key, |s|), i, |s|)} ::
      (key in loc && 0 <= i < |s| && Dist(Hash(key, |s|), i, |s|) < Dist(Hash(key, |s|), loc[key], |s|)) ==>
      s[i].Full?
  }

  ghost function OccupiedOf(s: seq<Slot>): set<int> {
    set i | 0 <= i < |s| && s[i].Full?
  }

  /** The slot indices 0 .. n - 1. */
  ghost function Indices(n: nat): (r: set<int>)
    ensures |r| == n
    ensures forall i :: i in r <==> 0 <= i < n
  {
    if n == 0 then {} else Indices(n - 1) + {n - 1}
  }

  /** A set of fewer than n slot indices leaves some slot out. */
  lemma FreeSlotExists(s: seq<Slot>)
    requires |OccupiedOf(s)| < |s|
    ensures exists i :: 0 <= i < |s| && s[i].Empty?
  {
    var free := Indices(|s|) - OccupiedOf(s);
    assert Indices(|s|) == OccupiedOf(s) + free;
    var i :| i in free;
  }

  lemma SubsetCard<T>(a: set<T>, b: set<T>)
    requires a <= b
    ensures |a| <= |b|
  {
    assert b == a + (b - a);
  }

  /** s represents contents: it holds exactly those entries, no probe path
      has a gap, every stored key has at least one position, and count is
      both the number of keys and of occupied slots. */
  ghost predicate Represents(s: seq<Slot>, contents: map<nat, seq<int>>, loc: map<nat, nat>, count: int) {
    && |s| >= 1
    && Holds(s, contents, loc)
    && NoGaps(s, loc)
    && (forall key :: key in contents ==> contents[key] != [])
    && count == |contents| == |OccupiedOf(s)|
  }

  /** Filling an empty slot occupies exactly one more slot. */
  lemma OccupiedAfterFill(s: seq<Slot>, slot: int, x: Slot)
    requires 0 <= slot < |s| && s[slot].Empty? && x.Full?
    ensures slot !in OccupiedOf(s)
    ensures OccupiedOf(s[slot := x]) == OccupiedOf(s) + {slot}
  {
  }

  /** Overwriting a full slot with a full slot leaves the occupied set alone. */
  lemma OccupiedAfterOverwrite(s: seq<Slot>, slot: int, x: Slot)
    requires 0 <= slot < |s| && s[slot].Full? && x.Full?
    ensures OccupiedOf(s[slot := x]) == OccupiedOf(s)
  {
  }

  lemma HoldsAfterPlace(s: seq<Slot>, contents: map<nat, seq<int>>, loc: map<nat, nat>, key: nat, ps: seq<int>, slot: int)
    requires Holds(s, contents, loc) && key !in contents
    requires 0 <= slot < |s| && s[slot].Empty?
    ensures Holds(s[slot := Full(key, ps)], contents[key := ps], loc[key := slot])
  {
    var t := s[slot := Full(key, ps)];
    var contents' := contents[key := ps];
    var loc' := loc[key := slot];
    forall k | k in loc' ensures loc'[k] < |t| && t[loc'[k]] == Full(k, contents'[k]) {
      if k != key {
        assert s[loc[k]].Full?;
      }
    }
    forall i | 0 <= i < |t| && t[i].Full? ensures t[i].key in loc' && loc'[t[i].key] == i {
      if i != slot {
        assert s[i].key in loc;
      }
    }
  }

  lemma NoGapsAfterPlace(s: seq<Slot>, loc: map<nat, nat>, key: nat, ps: seq<int>, slot: int)
    requires |s| >= 1 && NoGaps(s, loc) && key !in loc
    requires 0 <= slot < |s|
    requires forall i :: 0 <= i < |s| && Dist(Hash(key, |s|), i, |s|) < Dist(Hash(key, |s|), slot, |s|) ==> s[i].Full?
    ensures NoGaps(s[slot := Full(key, ps)], loc[key := slot])
  {
    var t := s[slot := Full(key, ps)];
    var loc' := loc[key := slot];
    forall k, i | k in loc' && 0 <= i < |t| && Dist(Hash(k, |t|), i, |t|) < Dist(Hash(k, |t|), loc'[k], |t|)
      ensures t[i].Full?
    {
      if k != key && i != slot {
        assert s[i].Full?;
      }
    }
  }

  lemma HoldsAfterReplace(s: seq<Slot>, contents: map<nat, seq<int>>, loc: map<nat, nat>, key: nat, ps: seq<int>)
    requires Holds(s, contents, loc) && key in contents
    ensures Holds(s[loc[key] := Full(key, ps)], contents[key := ps], loc)
  {
    var t := s[loc[key] := Full(key, ps)];
    forall i | 0 <= i < |t| && t[i].Full? ensures t[i].key in loc && loc[t[i].key] == i {
      if i != loc[key] {
        assert s[i].key in loc;
      }
    }
  }

  lemma NoGapsAfterReplace(s: seq<Slot>, loc: map<nat, nat>, slot: int, x: Slot)
    requires |s| >= 1 && NoGaps(s, loc)
    requires 0 <= slot < |s| && s[slot].Full? && x.Full?
    ensures NoGaps(s[slot := x], loc)
  {
    var t := s[slot := x];
    forall k, i | k in loc && 0 <= i < |t| && Dist(Hash(k, |t|), i, |t|) < Dist(Hash(k, |t|), loc[k], |t|)
      ensures t[i].Full?
    {
      if i != slot {
        assert s[i].Full?;
      }
    }
  }

  /** The entries the slots hold, read from the first slot to the last. */
  ghost function ContentsOf(s: seq<Slot>): map<nat, seq<int>> {
    if s == [] then map[]
    else
      var m := ContentsOf(s[..|s| - 1]);
      var last := s[|s| - 1];
      if last.Full? then m[last.key := last.positions] else m
  }

  /** The slot of each stored key, read from the first slot to the last. */
  ghost function LocOf(s: seq<Slot>): map<nat, nat> {
    if s == [] then map[]
    else
      var m := LocOf(s[..|s| - 1]);
      var last := s[|s| - 1];
      if last.Full? then m[last.key := |s| - 1] else m
  }

  /** The invariant of the slot array: it represents the entries it holds,
      with count entries. */
  ghost predicate Inv(s: seq<Slot>, count: int) {
    Represents(s, ContentsOf(s), LocOf(s), count)
  }

  lemma {:induction false} EmptyContents(s: seq<Slot>)
    requires forall i :: 0 <= i < |s| ==> s[i] == Empty
    ensures ContentsOf(s) == map[] && LocOf(s) == map[]
  {
    if s != [] {
      EmptyContents(s[..|s| - 1]);
    }
  }

  /** A table whose slots are all empty is valid and holds nothing. */
  lemma EmptyInv(s: seq<Slot>)
    requires |s| >= 1 && forall i :: 0 <= i < |s| ==> s[i] == Empty
    ensures Inv(s, 0) && ContentsOf(s) == map[]
  {
    EmptyContents(s);
    assert OccupiedOf(s) == {};
  }

  /** Writing entry x into slot i, when no other slot holds its key, sets
      that key's entry and slot and leaves every other key alone. */
  lemma {:induction false} UpdateSlot(s: seq<Slot>, i: int, x: Slot)
    requires 0 <= i < |s| && x.Full?
    requires forall j :: 0 <= j < |s| && j != i && s[j].Full? ==> s[j].key != x.key
    requires s[i].Full? ==> s[i].key == x.key
    ensures ContentsOf(s[i := x]) == ContentsOf(s)[x.key := x.positions]
    ensures LocOf(s[i := x]) == LocOf(s)[x.key := i]
    decreases |s|
  {
    var n := |s| - 1;
    var t := s[i := x];
    if i == n {
      assert t[..n] == s[..n];
    } else {
      assert t[..n] == s[..n][i := x];
      UpdateSlot(s[..n], i, x);
      var m := ContentsOf(s[..n]);
      var l := LocOf(s[..n]);
      if s[n].Full? {
        var k, ps: seq<int> := s[n].key, s[n].positions;
        assert k != x.key;
        var m1: map<nat, seq<int>>, l1: map<nat, nat> := m[x.key := x.positions], l[x.key := i];
        var m2: map<nat, seq<int>>, l2: map<nat, nat> := m[k := ps], l[k := n];
        assert m1[k := ps] == m2[x.key := x.positions];
        assert l1[k := n] == l2[x.key := i];
      }
    }
  }

  /** A key that no slot of t holds is not among t's entries. */
  lemma {:induction false} AbsentWhenNotHeld(t: seq<Slot>, key: nat)
    requires forall j :: 0 <= j < |t| && t[j].Full? ==> t[j].key != key
    ensures key !in ContentsOf(t)
    decreases |t|
  {
    if t != [] {
      AbsentWhenNotHeld(t[..|t| - 1], key);
    }
  }

  /** Reading a valid table slot by slot: slot i adds its entry, under a key
      that no earlier slot holds, or nothing when it is empty. */
  lemma PrefixStep(s: seq<Slot>, count: int, i: int)
    requires Inv(s, count) && 0 <= i < |s|
    ensures s[i].Empty? ==> ContentsOf(s[..i + 1]) == ContentsOf(s[..i])
    ensures s[i].Full? ==> s[i].key !in ContentsOf(s[..i]) && s[i].positions != []
    ensures s[i].Full? ==> ContentsOf(s[..i + 1]) == ContentsOf(s[..i])[s[i].key := s[i].positions]
  {
    assert s[..i + 1][..i] == s[..i];
    SlotOwner(s, count, i);
    if s[i].Full? {
      var t := s[..i];
      forall j | 0 <= j < |t| && t[j].Full? ensures t[j].key != s[i].key {
        assert t[j] == s[j];
      }
      AbsentWhenNotHeld(t, s[i].key);
    }
  }

  /** A valid table holds at most one entry per slot. */
  lemma CountBound(s: seq<Slot>, count: int)
    requires Inv(s, count)
    ensures 0 <= count <= |s|
  {
    SubsetCard(OccupiedOf(s), Indices(|s|));
  }

  /** A valid table with fewer entries than slots has an empty slot. */
  lemma FreeSlot(s: seq<Slot>, count: int)
    requires Inv(s, count) && count < |s|
    ensures exists i :: 0 <= i < |s| && s[i].Empty?
  {
    FreeSlotExists(s);
  }

  /** The key whose slot is i, if any, is the one stored there. */
  lemma SlotOwner(s: seq<Slot>, count: int, i: int)
    requires Inv(s, count) && 0 <= i < |s|
    ensures forall key :: key in LocOf(s) && LocOf(s)[key] == i ==> s[i] == Full(key, ContentsOf(s)[key])
    ensures s[i].Full? ==> s[i].key in ContentsOf(s) && LocOf(s)[s[i].key] == i
    ensures s[i].Full? ==> ContentsOf(s)[s[i].key] == s[i].positions != []
  {
  }

  /** Probing for key visited every slot and found only other keys: the key
      is not stored. */
  lemma AbsentWhenAllOthers(s: seq<Slot>, count: int, key: nat)
    requires Inv(s, count)
    requires forall i :: 0 <= i < |s| && Dist(Hash(key, |s|), i, |s|) < |s| ==> s[i].Full? && s[i].key != key
    ensures key !in ContentsOf(s)
  {
    forall i | 0 <= i < |s| ensures s[i].Full? && s[i].key != key {
      assert Dist(Hash(key, |s|), i, |s|) < |s|;
    }
  }

  /** Probing for key from its home slot passed only other keys and stopped at
      an empty slot: the key is not stored. */
  lemma AbsentBeforeEmpty(s: seq<Slot>, count: int, key: nat, slot: int)
    requires Inv(s, count)
    requires 0 <= slot < |s| && s[slot].Empty?
    requires forall i :: 0 <= i < |s| && Dist(Hash(key, |s|), i, |s|) < Dist(Hash(key, |s|), slot, |s|) ==>
      s[i].Full? && s[i].key != key
    ensures key !in ContentsOf(s)
  {
    var n := |s|;
    assert forall j :: 0 <= j < n && s[j].Full? ==> j != slot;
    forall j | 0 <= j < n && j != slot && s[j].Full? ensures s[j].key != key {
      var k := s[j].key;
      assert k in LocOf(s) && LocOf(s)[k] == j;
      // slot is empty, so it is not strictly inside k's probe path
      assert !(Dist(Hash(k, n), slot, n) < Dist(Hash(k, n), j, n));
    }
    AbsentWhenNotHeld(s, key);
  }

  /** Storing a new key in the empty slot its probe reached adds exactly that
      entry and keeps the invariant, with one more entry. */
  lemma PlaceNew(s: seq<Slot>, count: int, key: nat, ps: seq<int>, slot: int)
    requires Inv(s, count)
    requires 0 <= slot < |s| && s[slot].Empty? && ps != []
    requires forall i :: 0 <= i < |s| && Dist(Hash(key, |s|), i, |s|) < Dist(Hash(key, |s|), slot, |s|) ==>
      s[i].Full? && s[i].key != key
    ensures key !in ContentsOf(s)
    ensures ContentsOf(s[slot := Full(key, ps)]) == ContentsOf(s)[key := ps]
    ensures Inv(s[slot := Full(key, ps)], count + 1)
  {
    var contents, loc := ContentsOf(s), LocOf(s);
    AbsentBeforeEmpty(s, count, key, slot);
    UpdateSlot(s, slot, Full(key, ps));
    HoldsAfterPlace(s, contents, loc, key, ps, slot);
    NoGapsAfterPlace(s, loc, key, ps, slot);
    OccupiedAfterFill(s, slot, Full(key, ps));
  }

  /** Replacing the position list of the key stored in a full slot changes
      exactly that entry and keeps the invariant. */
  lemma ReplacePositions(s: seq<Slot>, count: int, slot: int, ps: seq<int>)
    requires Inv(s, count) && 0 <= slot < |s| && s[slot].Full? && ps != []
    ensures s[slot].key in ContentsOf(s) && ContentsOf(s)[s[slot].key] == s[slot].positions
    ensures ContentsOf(s[slot := Full(s[slot].key, ps)]) == ContentsOf(s)[s[slot].key := ps]
    ensures Inv(s[slot := Full(s[slot].key, ps)], count)
  {
    var contents, loc := ContentsOf(s), LocOf(s);
    var key := s[slot].key;
    UpdateSlot(s, slot, Full(key, ps));
    assert loc[key := slot] == loc;
    HoldsAfterReplace(s, contents, loc, key, ps);
    NoGapsAfterReplace(s, loc, slot, Full(key, ps));
    OccupiedAfterOverwrite(s, slot, Full(key, ps));
  }
}
