/** The sequence embedding: integer tallies over the sequence and over the
    k-mer count map, the five-component vector built from them, and its
    normalisation to unit length. The entropy component and the square root
    are inputs: they are floating-point library results. */
module Embedding {
  import opened ExtReal
  import opened MapSum

  /** Number of 'G' and 'C' characters in s. */
  function GcCount(s: seq<char>): nat {
    if s == [] then 0 else GcCount(s[..|s| - 1]) + (if s[|s| - 1] == 'G' || s[|s| - 1] == 'C' then 1 else 0)
  }

  /** Number of 'A' and 'T' characters in s. */
  function AtCount(s: seq<char>): nat {
    if s == [] then 0 else AtCount(s[..|s| - 1]) + (if s[|s| - 1] == 'A' || s[|s| - 1] == 'T' then 1 else 0)
  }

  /** The tallies count characters by value, whatever their order, and no
      character is counted twice. */
  lemma {:induction false} BaseCounts(s: seq<char>)
    ensures GcCount(s) == multiset(s)['G'] + multiset(s)['C']
    ensures AtCount(s) == multiset(s)['A'] + multiset(s)['T']
    ensures GcCount(s) + AtCount(s) <= |s|
  {
    if s != [] {
      var init := s[..|s| - 1];
      BaseCounts(init);
      assert s == init + [s[|s| - 1]];
      assert multiset(s) == multiset(init) + multiset{s[|s| - 1]};
    }
  }

  /** The first loop of get_sequence_embedding. */
  method CountBases(sequence: seq<char>) returns (gc: int, at: int)
    ensures gc == multiset(sequence)['G'] + multiset(sequence)['C']
    ensures at == multiset(sequence)['A'] + multiset(sequence)['T']
    ensures gc + at <= |sequence|
  {
    gc, at := 0, 0;
    for i := 0 to |sequence|
      invariant gc == GcCount(sequence[..i]) && at == AtCount(sequence[..i])
    {
      assert sequence[..i + 1][..i] == sequence[..i];
      var c := sequence[i];
      if c == 'G' || c == 'C' {
        gc := gc + 1;
      } else if c == 'A' || c == 'T' {
        at := at + 1;
      }
    }
    assert sequence[..|sequence|] == sequence;
    BaseCounts(sequence);
  }

  /** The entries whose count is below 2: the ones rare_count adds up. */
  ghost function RareEntries(m: map<nat, int>): map<nat, int> {
    map key | key in m && m[key] < 2 :: m[key]
  }

  /** Taking one key out of the count map takes its count out of the rare
      sum exactly when that count is below 2. */
  lemma RareStep(m: map<nat, int>, key: nat)
    requires key in m
    ensures Sum(RareEntries(m)) == (if m[key] < 2 then m[key] else 0) + Sum(RareEntries(m - {key}))
  {
    var r := RareEntries(m);
    if m[key] < 2 {
      SumRemove(r, key);
      assert r - {key} == RareEntries(m - {key});
    } else {
      assert r == RareEntries(m - {key});
    }
  }

  /** rare_count: the sum of the counts below 2, visiting each key once. */
  method RareCount(counts: map<nat, int>) returns (rare: int)
    ensures rare == Sum(RareEntries(counts))
  {
    rare := 0;
    var rest := counts;
    while rest != map[]
      invariant rare + Sum(RareEntries(rest)) == Sum(RareEntries(counts))
      decreases |rest|
    {
      var key :| key in rest;
      RareStep(rest, key);
      if rest[key] < 2 {
        rare := rare + rest[key];
      }
      rest := rest - {key};
    }
    assert RareEntries(rest) == map[];
  }

  /** total_kmers: the sum of all counts, visiting each key once. */
  method TotalKmers(counts: map<nat, int>) returns (total: int)
    ensures total == Sum(counts)
  {
    total := 0;
    var rest := counts;
    while rest != map[]
      invariant total + Sum(rest) == Sum(counts)
      decreases |rest|
    {
      var key :| key in rest;
      SumRemove(rest, key);
      total := total + rest[key];
      rest := rest - {key};
    }
  }

  /** With every count at least 1 (as the index guarantees), rare_count is
      the number of k-mers seen exactly once, and it is at most total_kmers. */
  lemma RareIsSeenOnce(m: map<nat, int>)
    requires forall key :: key in m ==> m[key] >= 1
    ensures Sum(RareEntries(m)) == |set key | key in m && m[key] == 1|
    ensures Sum(RareEntries(m)) <= Sum(m)
  {
    var r := RareEntries(m);
    SumOfOnes(r);
    assert r.Keys == set key | key in m && m[key] == 1;
    SumOfSubmap(r, m);
  }

  /** Two non-negative tallies that add up to at most a positive total have
      non-negative shares of it that add up to at most one. */
  lemma ShareBounds(a: int, b: int, total: int)
    ensures 0 <= a && 0 <= b && a + b <= total && 0 < total ==>
      0.0 <= (a as real) / (total as real) && 0.0 <= (b as real) / (total as real) &&
      (a as real) / (total as real) + (b as real) / (total as real) <= 1.0
  {
    if 0 <= a && 0 <= b && a + b <= total && 0 < total {
      assert (a as real) / (total as real) + (b as real) / (total as real) == ((a + b) as real) / (total as real);
    }
  }

  /** The five components before normalisation: G/C fraction, rare fraction,
      A/T fraction, entropy per key, palindrome fraction (never counted). */
  function RawEmbedding(gc: int, rare: int, at: int, total: int, totalKmers: int, entropy: Ext, keys: nat): (r: seq<Ext>)
    ensures |r| == 5
    ensures 0 <= gc && 0 <= at && gc + at <= total && 0 < total ==>
      r[0].Fin? && r[2].Fin? && 0.0 <= r[0].val && 0.0 <= r[2].val && r[0].val + r[2].val <= 1.0
    ensures 0 <= rare <= totalKmers && 0 < totalKmers ==> r[1].Fin? && 0.0 <= r[1].val <= 1.0
    ensures r[4] == if totalKmers == 0 then NaN else Fin(0.0)
  {
    ShareBounds(gc, at, total);
    ShareBounds(rare, 0, totalKmers);
    [ Div(Fin(gc as real), Fin(total as real)),
      Div(Fin(rare as real), Fin(totalKmers as real)),
      Div(Fin(at as real), Fin(total as real)),
      Div(entropy, Fin(keys as real)),
      Div(Fin(0.0), Fin(totalKmers as real)) ]
  }

  /** Sum of the squares of the components, accumulated from the first. */
  function SumSquares(v: seq<Ext>): Ext {
    if v == [] then Fin(0.0) else Add(SumSquares(v[..|v| - 1]), Mul(v[|v| - 1], v[|v| - 1]))
  }

  /** v divided componentwise by its magnitude when the magnitude is above
      zero; otherwise v itself. */
  function Normalized(v: seq<Ext>, sqrt: SqrtFn): (r: seq<Ext>)
    ensures |r| == |v|
  {
    var mag := Sqrt(SumSquares(v), sqrt);
    if Gt(mag, Fin(0.0)) then seq(|v|, i requires 0 <= i < |v| => Div(v[i], mag)) else v
  }

  /** The normalisation step, in place on the embedding's array. */
  method Normalize(v: array<Ext>, sqrt: SqrtFn)
    modifies v
    ensures var mag := Sqrt(SumSquares(old(v[..])), sqrt);
      && (Gt(mag, Fin(0.0)) ==> forall i :: 0 <= i < v.Length ==> v[i] == Div(old(v[i]), mag))
      && (!Gt(mag, Fin(0.0)) ==> v[..] == old(v[..]))
    ensures v[..] == Normalized(old(v[..]), sqrt)
  {
    var sq := Fin(0.0);
    for i := 0 to v.Length
      invariant sq == SumSquares(v[..i])
    {
      assert v[..i + 1][..i] == v[..i];
      sq := Add(sq, Mul(v[i], v[i]));
    }
    assert v[..v.Length] == v[..];
    var mag := Sqrt(sq, sqrt);
    if Gt(mag, Fin(0.0)) {
      for i := 0 to v.Length
        invariant forall j :: 0 <= j < i ==> v[j] == Div(old(v[j]), mag)
        invariant forall j :: i <= j < v.Length ==> v[j] == old(v[j])
      {
        v[i] := Div(v[i], mag);
      }
    }
  }

  /** get_sequence_embedding: the tallies, the raw vector and its
      normalisation. entropy is the entropy value the source accumulates
      with log2 over the counts; with no counts its loop never runs and it
      stays 0.0. */
  method GetSequenceEmbedding(counts: map<nat, int>, sequence: seq<char>, entropy: Ext, sqrt: SqrtFn)
    returns (emb: seq<Ext>)
    requires counts == map[] ==> entropy == Fin(0.0)
    ensures |emb| == 5
    ensures emb == Normalized(RawEmbedding(
      multiset(sequence)['G'] + multiset(sequence)['C'], Sum(RareEntries(counts)),
      multiset(sequence)['A'] + multiset(sequence)['T'], |sequence|, Sum(counts), entropy, |counts|), sqrt)
    ensures emb[4] == if Sum(counts) == 0 then NaN else Fin(0.0)
    ensures counts == map[] ==> emb[1] == NaN && emb[3] == NaN && emb[4] == NaN
  {
    var gc, at := CountBases(sequence);
    var rare := RareCount(counts);
    var totalKmers := TotalKmers(counts);
    var raw := RawEmbedding(gc, rare, at, |sequence|, totalKmers, entropy, |counts|);
    var v := new Ext[5](i requires 0 <= i < 5 reads {} => raw[i]);
    assert v[..] == raw;
    Normalize(v, sqrt);
    emb := v[..];
    PalComponent(raw, sqrt);
    if counts == map[] {
      NaNSkipsNormalization(raw, sqrt, 4);
    }
  }

  /** A NaN component makes the magnitude NaN, so the vector is not
      divided and keeps its NaN. */
  lemma NaNSkipsNormalization(v: seq<Ext>, sqrt: SqrtFn, i: int)
    requires 0 <= i < |v| && v[i].NaN?
    ensures Normalized(v, sqrt) == v
  {
    SumSquaresNaN(v, i);
  }

  /** The palindrome count is never incremented, so its component is 0 after
      normalisation, or NaN when no k-mer was counted. */
  lemma PalComponent(raw: seq<Ext>, sqrt: SqrtFn)
    requires |raw| == 5 && (raw[4] == Fin(0.0) || raw[4] == NaN)
    ensures Normalized(raw, sqrt)[4] == raw[4]
  {
    var mag := Sqrt(SumSquares(raw), sqrt);
    NormalizedAt(raw, sqrt, 4);
    if raw[4] == NaN {
      SumSquaresNaN(raw, 4);
    }
  }

  /** One component of the normalised vector. */
  lemma NormalizedAt(v: seq<Ext>, sqrt: SqrtFn, i: int)
    requires 0 <= i < |v|
    ensures |Normalized(v, sqrt)| == |v|
    ensures var mag := Sqrt(SumSquares(v), sqrt);
      Normalized(v, sqrt)[i] == if Gt(mag, Fin(0.0)) then Div(v[i], mag) else v[i]
  {
  }

  /** One NaN component makes the sum of squares NaN. */
  lemma {:induction false} SumSquaresNaN(v: seq<Ext>, i: int)
    requires 0 <= i < |v| && v[i].NaN?
    ensures SumSquares(v).NaN?
  {
    if i < |v| - 1 {
      SumSquaresNaN(v[..|v| - 1], i);
    }
  }

  predicate AllFinite(v: seq<Ext>) {
    forall i :: 0 <= i < |v| ==> v[i].Fin?
  }

  /** v with every component divided by m. */
  function Scaled(v: seq<Ext>, m: real): (r: seq<Ext>)
    ensures |r| == |v|
  {
    seq(|v|, i requires 0 <= i < |v| => Div(v[i], Fin(m)))
  }

  /** Products and squares as named functions: the proofs about sums of
      squares below then match products by their arguments and do not need
      nonlinear reasoning. */
  function Times(a: real, b: real): real {
    a * b
  }

  function Sq(x: real): real {
    x * x
  }

  /** Squaring x / m and multiplying back by m^2 gives x^2. */
  lemma SquareDivTimes(x: real, m: real)
    requires m != 0.0
    ensures Times(Sq(x / m), Sq(m)) == Sq(x)
  {
    var q := x / m;
    assert q * m == x;
    assert (q * q) * (m * m) == (q * m) * (q * m);
  }

  lemma Distribute(a: real, y: real, k: real)
    ensures Times(a + y, k) == Times(a, k) + Times(y, k)
  {
  }

  /** The last component's square is added to the sum of the others. */
  lemma SumSquaresLast(v: seq<Ext>)
    requires v != [] && AllFinite(v)
    ensures SumSquares(v[..|v| - 1]).Fin?
    ensures SumSquares(v) == Fin(SumSquares(v[..|v| - 1]).val + Sq(v[|v| - 1].val))
  {
    SquaresNonNegative(v[..|v| - 1]);
  }

  /** If each square of w times m^2 is the matching square of v, so is the
      sum of the squares. */
  lemma {:induction false} SumSquaresRelated(w: seq<Ext>, v: seq<Ext>, m: real)
    requires |w| == |v| && AllFinite(w) && AllFinite(v)
    requires forall i :: 0 <= i < |v| ==> Times(Sq(w[i].val), Sq(m)) == Sq(v[i].val)
    ensures SumSquares(w).Fin? && SumSquares(v).Fin?
    ensures Times(SumSquares(w).val, Sq(m)) == SumSquares(v).val
  {
    if v == [] {
      assert SumSquares(w) == Fin(0.0);
    } else {
      var n := |v| - 1;
      SumSquaresRelated(w[..n], v[..n], m);
      SumSquaresLast(w);
      SumSquaresLast(v);
      Distribute(SumSquares(w[..n]).val, Sq(w[n].val), Sq(m));
    }
  }

  /** Dividing a finite vector by m > 0 divides its sum of squares by m^2. */
  lemma SumSquaresScaled(v: seq<Ext>, m: real)
    requires AllFinite(v) && m > 0.0
    ensures SumSquares(v).Fin? && SumSquares(Scaled(v, m)).Fin?
    ensures Times(SumSquares(Scaled(v, m)).val, Sq(m)) == SumSquares(v).val
  {
    var w := Scaled(v, m);
    forall i | 0 <= i < |v|
      ensures w[i].Fin? && Times(Sq(w[i].val), Sq(m)) == Sq(v[i].val)
    {
      assert w[i] == Fin(v[i].val / m);
      SquareDivTimes(v[i].val, m);
    }
    SumSquaresRelated(w, v, m);
  }

  /** sqrt is exact at s: a non-negative root whose square is s. */
  predicate ExactRoot(sqrt: SqrtFn, s: real) {
    sqrt(s) >= 0.0 && sqrt(s) * sqrt(s) == s
  }

  /** A finite vector with a positive sum of squares, normalised with a
      correct square root, has unit length; a zero vector is left as it is. */
  lemma NormalizedIsUnit(v: seq<Ext>, sqrt: SqrtFn)
    requires AllFinite(v)
    requires SumSquares(v).Fin? ==> ExactRoot(sqrt, SumSquares(v).val)
    requires sqrt(0.0) == 0.0
    ensures SumSquares(v).Fin? && SumSquares(v).val >= 0.0
    ensures SumSquares(v).val > 0.0 ==> SumSquares(Normalized(v, sqrt)) == Fin(1.0)
    ensures SumSquares(v).val == 0.0 ==> Normalized(v, sqrt) == v
  {
    SquaresNonNegative(v);
    var s := SumSquares(v).val;
    if s > 0.0 {
      UnitWhenPositive(v, sqrt, s, sqrt(s));
    } else {
      assert SumSquares(v) == Fin(0.0);
    }
  }

  lemma UnitWhenPositive(v: seq<Ext>, sqrt: SqrtFn, s: real, m: real)
    requires AllFinite(v) && SumSquares(v) == Fin(s) && s > 0.0
    requires m == sqrt(s) && ExactRoot(sqrt, s)
    ensures SumSquares(Normalized(v, sqrt)) == Fin(1.0)
  {
    RootPositive(m, s);
    NormalizedIsScaled(v, sqrt, m);
    SumSquaresScaled(v, m);
    ProductIsOne(SumSquares(Scaled(v, m)).val, m, s);
  }

  lemma RootPositive(m: real, s: real)
    requires m >= 0.0 && m * m == s && s > 0.0
    ensures m > 0.0
  {
    assert m == 0.0 ==> m * m == 0.0 * 0.0;
  }

  lemma NormalizedIsScaled(v: seq<Ext>, sqrt: SqrtFn, m: real)
    requires Sqrt(SumSquares(v), sqrt) == Fin(m) && m > 0.0
    ensures Normalized(v, sqrt) == Scaled(v, m)
  {
  }

  lemma ProductIsOne(t: real, m: real, s: real)
    requires m * m == s && s > 0.0 && Times(t, Sq(m)) == s
    ensures t == 1.0
  {
    assert Sq(m) == s;
    assert Times(t, s) == s;
    assert (t - 1.0) * s == 0.0;
  }

  lemma {:induction false} SquaresNonNegative(v: seq<Ext>)
    requires AllFinite(v)
    ensures SumSquares(v).Fin? && SumSquares(v).val >= 0.0
  {
    if v != [] {
      SquaresNonNegative(v[..|v| - 1]);
      var x := v[|v| - 1].val;
      assert x * x >= 0.0;
    }
  }
}
