/** Worked examples of indexing, on short genomes. */
module Scenarios {
  import opened KmerEncoding
  import opened KmerWindows
  import opened Embedding

  const GcGenome: seq<char> := "GCGCGCGCAT"

  /** "GCGCGCGCAT" with k = 2: "GC" starts at 0, 2, 4 and 6. */
  lemma GcRepeat()
    ensures NumWindows(GcGenome, 2) == 9
    ensures Occurrences(GcGenome, "GC", 9) == [0, 2, 4, 6]
  {
    GcLastThree();
  }

  lemma GcFirstThree()
    ensures Occurrences(GcGenome, "GC", 3) == [0, 2]
  {
    var g, w := GcGenome, "GC";
    assert g[0..2] == w && g[1..3][0] != w[0] && g[2..4] == w;
    assert Occurrences(g, w, 1) == [0];
    assert Occurrences(g, w, 2) == [0];
  }

  lemma GcNextThree()
    ensures Occurrences(GcGenome, "GC", 6) == [0, 2, 4]
  {
    GcFirstThree();
    var g, w := GcGenome, "GC";
    assert g[3..5][0] != w[0] && g[4..6] == w && g[5..7][0] != w[0];
    assert Occurrences(g, w, 4) == [0, 2];
    assert Occurrences(g, w, 5) == [0, 2, 4];
  }

  lemma GcLastThree()
    ensures Occurrences(GcGenome, "GC", 9) == [0, 2, 4, 6]
  {
    GcSeventh();
    var g, w := GcGenome, "GC";
    assert Occurrences(g, w, 8) == Occurrences(g, w, 7) by {
      assert g[7..9][0] == 'C';
      OccurrencesSkip(g, w, 7);
    }
    assert Occurrences(g, w, 9) == Occurrences(g, w, 8) by {
      assert g[8..10][0] == 'A';
      OccurrencesSkip(g, w, 8);
    }
  }

  /** A window that does not match adds no occurrence. */
  lemma OccurrencesSkip(g: seq<char>, w: seq<char>, n: nat)
    requires n < NumWindows(g, |w|) && g[n..n + |w|] != w
    ensures Occurrences(g, w, n + 1) == Occurrences(g, w, n)
  {
  }

  lemma GcSeventh()
    ensures Occurrences(GcGenome, "GC", 7) == [0, 2, 4, 6]
  {
    GcNextThree();
    var g, w := GcGenome, "GC";
    assert g[6..8] == w;
  }

  /** The tally of a concatenation is the sum of the tallies. */
  lemma {:induction false} GcCountConcat(a: seq<char>, b: seq<char>)
    ensures GcCount(a + b) == GcCount(a) + GcCount(b)
    decreases |b|
  {
    if b != [] {
      var n := |b| - 1;
      assert (a + b)[..|a + b| - 1] == a + b[..n];
      GcCountConcat(a, b[..n]);
    } else {
      assert a + b == a;
    }
  }

  /** Eight of the ten characters of "GCGCGCGCAT" are G or C. */
  lemma GcRepeatComposition()
    ensures GcCount("GCGCGCGCAT") == 8
  {
    var gc, at := "GC", "AT";
    assert GcCount(gc) == 2 by { assert gc[..1] == "G" && "G"[..0] == []; }
    assert GcCount(at) == 0 by { assert at[..1] == "A" && "A"[..0] == []; }
    GcCountConcat(gc, gc);
    GcCountConcat(gc + gc, gc);
    GcCountConcat(gc + gc + gc, gc);
    GcCountConcat(gc + gc + gc + gc, at);
    assert "GCGCGCGCAT" == gc + gc + gc + gc + at;
  }

  /** A genome shorter than k has no windows, so its index is empty. */
  lemma ShortGenome(g: seq<char>, k: nat)
    requires |g| < k
    ensures IndexOf(g, k, NumWindows(g, k)) == map[]
  {
  }

  /** The offsets 0 .. n - 1 in increasing order. */
  function Range(n: nat): (r: seq<int>)
    ensures |r| == n
  {
    if n == 0 then [] else Range(n - 1) + [n - 1]
  }

  /** Ten 'A's with k = 3: one key, "AAA", seen at the eight offsets 0 .. 7. */
  lemma UniformGenome()
    ensures NumWindows(TenAs, 3) == 8
    ensures IndexOf(TenAs, 3, 8) == map[Encode("AAA") := [0, 1, 2, 3, 4, 5, 6, 7]]
  {
    UniformPrefix(8);
    RangeEight();
  }

  lemma RangeEight()
    ensures Range(8) == [0, 1, 2, 3, 4, 5, 6, 7]
  {
  }

  const TenAs: seq<char> := "AAAAAAAAAA"


  lemma {:induction false} UniformPrefix(n: nat)
    requires 1 <= n <= 8
    ensures IndexOf(TenAs, 3, n) == map[Encode("AAA") := Range(n)]
  {
    var g := TenAs;
    var key := Encode("AAA");
    var w := g[n - 1..n + 2];
    assert w == "AAA";
    var prev := if n == 1 then map[] else map[key := Range(n - 1)];
    if n > 1 {
      UniformPrefix(n - 1);
    }
    assert IndexOf(g, 3, n - 1) == prev;
    assert Lookup(prev, key) == Range(n - 1);
    assert IndexOf(g, 3, n) == prev[key := Range(n)];
  }
}
