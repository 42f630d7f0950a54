/** What indexing a genome means, stated independently of the hash table: the
    fold that build_index performs over the windows, the occurrence list of a
    k-mer, and the count map derived from an index. */
module KmerWindows {
  import opened KmerEncoding
  import opened MapSum

  /** Number of width-k windows of g (start offsets 0 .. |g| - k). */
  function NumWindows(g: seq<char>, k: nat): nat {
    if |g| < k then 0 else |g| - k + 1
  }

  function Lookup(m: map<nat, seq<int>>, key: nat): seq<int> {
    if key in m then m[key] else []
  }

  /** The key -> positions map obtained by sliding a width-k window over the
      first n start offsets of g, appending each offset to its window's key and
      skipping windows that contain a character outside {A,C,G,T}. */
  function IndexOf(g: seq<char>, k: nat, n: nat): (r: map<nat, seq<int>>)
    requires n <= NumWindows(g, k)
    ensures forall key :: key in r ==> r[key] != []
  {
    if n == 0 then map[]
    else
      var m := IndexOf(g, k, n - 1);
      var w := g[n - 1..n - 1 + k];
      if AllBases(w) then m[Encode(w) := Lookup(m, Encode(w)) + [n - 1]] else m
  }

  /** One more window: the fold either appends offset n to the window's key
      or, for a window with a character outside {A,C,G,T}, changes nothing. */
  lemma IndexOfStep(g: seq<char>, k: nat, n: nat)
    requires n < NumWindows(g, k)
    ensures var w := g[n..n + k];
      IndexOf(g, k, n + 1) ==
        if AllBases(w) then IndexOf(g, k, n)[Encode(w) := Lookup(IndexOf(g, k, n), Encode(w)) + [n]]
        else IndexOf(g, k, n)
  {
  }

  /** The start offsets below n at which w occurs in g, in increasing order. */
  function Occurrences(g: seq<char>, w: seq<char>, n: nat): (r: seq<int>)
    requires n <= NumWindows(g, |w|)
    ensures forall p :: p in r <==> 0 <= p < n && g[p..p + |w|] == w
    ensures forall i :: 0 <= i < |r| ==> r[i] < n
    ensures forall i, j :: 0 <= i < j < |r| ==> r[i] < r[j]
  {
    if n == 0 then []
    else Occurrences(g, w, n - 1) + (if g[n - 1..n - 1 + |w|] == w then [n - 1] else [])
  }

  /** The positions the index holds for a k-mer are exactly its occurrences. */
  lemma {:induction false} IndexMatchesOccurrences(g: seq<char>, w: seq<char>, n: nat)
    requires AllBases(w) && n <= NumWindows(g, |w|)
    ensures Lookup(IndexOf(g, |w|, n), Encode(w)) == Occurrences(g, w, n)
  {
    if n > 0 {
      IndexMatchesOccurrences(g, w, n - 1);
      IndexOfStep(g, |w|, n - 1);
      var v := g[n - 1..n - 1 + |w|];
      if AllBases(v) {
        EncodeInjective(v, w);
      }
    }
  }

  /** Every window of bases is found: its start offset is among the
      positions stored under its key. */
  lemma IndexedWindowFound(g: seq<char>, k: nat, i: nat)
    requires i < NumWindows(g, k) && AllBases(g[i..i + k])
    ensures i in Lookup(IndexOf(g, k, NumWindows(g, k)), Encode(g[i..i + k]))
  {
    IndexMatchesOccurrences(g, g[i..i + k], NumWindows(g, k));
  }

  /** Every key of an index is the key of a k-mer, and its position list is
      the non-empty occurrence list of that k-mer. */
  lemma {:induction false} IndexEntries(g: seq<char>, k: nat, n: nat, key: nat)
    requires n <= NumWindows(g, k) && key in IndexOf(g, k, n)
    ensures key < Pow4(k)
    ensures IndexOf(g, k, n)[key] == Occurrences(g, Decode(key, k), n) != []
  {
    var m := IndexOf(g, k, n - 1);
    var v := g[n - 1..n - 1 + k];
    if AllBases(v) && key == Encode(v) {
      assert key < Pow4(k);
    } else {
      IndexEntries(g, k, n - 1, key);
    }
    var w := Decode(key, k);
    EncodeDecode(key, k);
    IndexMatchesOccurrences(g, w, n);
  }

  /** Number of windows among the first n that consist of bases only. */
  function ValidWindows(g: seq<char>, k: nat, n: nat): nat
    requires n <= NumWindows(g, k)
  {
    if n == 0 then 0
    else ValidWindows(g, k, n - 1) + (if AllBases(g[n - 1..n - 1 + k]) then 1 else 0)
  }

  /** The number of positions stored under each key. */
  function Counts(m: map<nat, seq<int>>): (c: map<nat, int>)
    ensures c.Keys == m.Keys
    ensures forall key :: key in c ==> c[key] == |m[key]|
  {
    map key | key in m :: |m[key]|
  }

  /** Replacing one key's list changes only that key's count. */
  lemma CountsUpdate(m: map<nat, seq<int>>, key: nat, l: seq<int>)
    ensures Counts(m[key := l]) == Counts(m)[key := |l|]
  {
  }

  /** The counts of an index add up to the number of windows it indexed. */
  lemma {:induction false} CountsSumToValidWindows(g: seq<char>, k: nat, n: nat)
    requires n <= NumWindows(g, k)
    ensures Sum(Counts(IndexOf(g, k, n))) == ValidWindows(g, k, n)
  {
    if n > 0 {
      CountsSumToValidWindows(g, k, n - 1);
      var m := IndexOf(g, k, n - 1);
      var v := g[n - 1..n - 1 + k];
      if AllBases(v) {
        var key := Encode(v);
        var c := Counts(m);
        assert IndexOf(g, k, n) == m[key := Lookup(m, key) + [n - 1]];
        CountsUpdate(m, key, Lookup(m, key) + [n - 1]);
        SumInsert(c, key, |Lookup(m, key)| + 1);
        if key in c {
          SumRemove(c, key);
        } else {
          assert c - {key} == c;
        }
      }
    }
  }
}
