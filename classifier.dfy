/** Function prediction from an embedding: three dot products against fixed
    prototype vectors, their shares of the total score, and the verdict
    ladder over those shares. The text report is left out; the verdict is a
    value. */
module Classifier {
  import opened ExtReal

  /** The prototype of each category, in the embedding's component order. */
  const RibosomalPrototype: seq<real> := [0.9, 0.1, 0.1, 0.9, 0.2]
  const MobilePrototype: seq<real> := [0.1, 0.9, 0.1, 0.1, 0.9]
  const MetabolicPrototype: seq<real> := [0.5, 0.2, 0.6, 0.7, 0.1]

  /** Share above which a category dominates, and above which it may be the
      leading category of a mixed signature. */
  const DominantShare: real := 0.60
  const MixedShare: real := 0.40

  datatype Category = Ribosomal | Mobile | Metabolic

  datatype Verdict = Dominant(category: Category) | Mixed(category: Category) | NoSingleFunction

  /** The three shares of the total score, by category. */
  datatype Fractions = Fractions(ribosomal: Ext, mobile: Ext, metabolic: Ext)

  function Share(f: Fractions, c: Category): Ext {
    match c
    case Ribosomal => f.ribosomal
    case Mobile => f.mobile
    case Metabolic => f.metabolic
  }

  predicate IsDominant(f: Fractions, c: Category) {
    Gt(Share(f, c), Fin(DominantShare))
  }

  /** c has more than 40% and strictly more than each other category. */
  predicate LeadsMixed(f: Fractions, c: Category) {
    var x := Share(f, c);
    && Gt(x, Fin(MixedShare))
    && (c == Ribosomal || Gt(x, f.ribosomal))
    && (c == Mobile || Gt(x, f.mobile))
    && (c == Metabolic || Gt(x, f.metabolic))
  }

  /** The if/else ladder: a dominant share first (ribosomal, mobile,
      metabolic), then a leading share of a mixed signature, otherwise no
      single function. */
  function Decide(f: Fractions): (v: Verdict)
    ensures v.Dominant? ==> IsDominant(f, v.category) && NoEarlierDominant(f, v.category)
    ensures v.Mixed? ==> NoneDominant(f) && LeadsMixed(f, v.category)
    ensures v == NoSingleFunction ==> NoneDominant(f)
  {
    var r, t, m := f.ribosomal, f.mobile, f.metabolic;
    if Gt(r, Fin(DominantShare)) then Dominant(Ribosomal)
    else if Gt(t, Fin(DominantShare)) then Dominant(Mobile)
    else if Gt(m, Fin(DominantShare)) then Dominant(Metabolic)
    else if Gt(r, Fin(MixedShare)) && Gt(r, t) && Gt(r, m) then Mixed(Ribosomal)
    else if Gt(t, Fin(MixedShare)) && Gt(t, r) && Gt(t, m) then Mixed(Mobile)
    else if Gt(m, Fin(MixedShare)) && Gt(m, r) && Gt(m, t) then Mixed(Metabolic)
    else NoSingleFunction
  }

  /** No category tried before c has a share above 60%. */
  predicate NoEarlierDominant(f: Fractions, c: Category) {
    match c
    case Ribosomal => true
    case Mobile => !IsDominant(f, Ribosomal)
    case Metabolic => !IsDominant(f, Ribosomal) && !IsDominant(f, Mobile)
  }

  predicate NoneDominant(f: Fractions) {
    !IsDominant(f, Ribosomal) && !IsDominant(f, Mobile) && !IsDominant(f, Metabolic)
  }

  /** What the ladder decides, category by category: c dominates when its
      share is above 60% and no category tried before it does; c leads a
      mixed signature when no share is above 60% and c's is above 40% and
      above both others. */
  lemma DecideMeaning(f: Fractions, c: Category)
    ensures Decide(f) == Dominant(c) <==> IsDominant(f, c) && NoEarlierDominant(f, c)
    ensures Decide(f) == Mixed(c) <==> NoneDominant(f) && LeadsMixed(f, c)
  {
  }

  /** No verdict exactly when no share is above 60% and none leads a mixed
      signature. */
  lemma DecideNothing(f: Fractions)
    ensures Decide(f) == NoSingleFunction <==>
      NoneDominant(f) && !LeadsMixed(f, Ribosomal) && !LeadsMixed(f, Mobile) && !LeadsMixed(f, Metabolic)
  {
  }

  /** At most one category leads a mixed signature, since `>` is a strict
      order; so the order of the three mixed tests does not matter. */
  lemma MixedLeaderUnique(f: Fractions, c: Category, d: Category)
    requires LeadsMixed(f, c) && LeadsMixed(f, d)
    ensures c == d
  {
    GtOrder(Share(f, c), Share(f, d), Share(f, c));
  }

  /** The dot product of v with w, accumulated from the first component. */
  function Dot(v: seq<Ext>, w: seq<real>): (r: Ext)
    requires |v| <= |w|
    ensures (exists i :: 0 <= i < |v| && v[i].NaN?) ==> r.NaN?
  {
    if v == [] then Fin(0.0) else Add(Dot(v[..|v| - 1], w), Mul(v[|v| - 1], Fin(w[|v| - 1])))
  }

  /** The dot product of a finite vector is the finite sum of the products. */
  lemma {:induction false} DotFinite(v: seq<Ext>, w: seq<real>)
    requires |v| <= |w| && forall i :: 0 <= i < |v| ==> v[i].Fin?
    ensures Dot(v, w).Fin?
  {
    if v != [] {
      DotFinite(v[..|v| - 1], w);
    }
  }

  /** A prediction: the raw scores, their shares and the verdict. */
  datatype Prediction = Prediction(r: Ext, t: Ext, m: Ext, fractions: Fractions, verdict: Verdict)

  /** The shares of the three scores in their sum, with IEEE division. */
  function FractionsOf(r: Ext, t: Ext, m: Ext): (f: Fractions)
    ensures r.NaN? || t.NaN? || m.NaN? ==> f == Fractions(NaN, NaN, NaN)
  {
    var total := Add(Add(r, t), m);
    Fractions(Div(r, total), Div(t, total), Div(m, total))
  }

  /** predict_function_from_embedding: the scoring loop, the shares and the
      ladder. The source's gc argument is never read and is not a parameter. */
  method PredictFunction(emb: seq<Ext>) returns (p: Prediction)
    requires |emb| == 5
    ensures p.r == Dot(emb, RibosomalPrototype)
    ensures p.t == Dot(emb, MobilePrototype)
    ensures p.m == Dot(emb, MetabolicPrototype)
    ensures p.fractions == FractionsOf(p.r, p.t, p.m)
    ensures p.verdict == Decide(p.fractions)
  {
    var r, t, m := Fin(0.0), Fin(0.0), Fin(0.0);
    for i := 0 to 5
      invariant r == Dot(emb[..i], RibosomalPrototype)
      invariant t == Dot(emb[..i], MobilePrototype)
      invariant m == Dot(emb[..i], MetabolicPrototype)
    {
      assert emb[..i + 1][..i] == emb[..i];
      r := Add(r, Mul(emb[i], Fin(RibosomalPrototype[i])));
      t := Add(t, Mul(emb[i], Fin(MobilePrototype[i])));
      m := Add(m, Mul(emb[i], Fin(MetabolicPrototype[i])));
    }
    assert emb[..5] == emb;
    var fractions := FractionsOf(r, t, m);
    p := Prediction(r, t, m, fractions, Decide(fractions));
  }

  /** With a finite non-zero total, the three shares add up to one. */
  lemma FractionsSumToOne(r: real, t: real, m: real)
    requires r + t + m != 0.0
    ensures var f := FractionsOf(Fin(r), Fin(t), Fin(m));
      f.ribosomal.Fin? && f.mobile.Fin? && f.metabolic.Fin? &&
      f.ribosomal.val + f.mobile.val + f.metabolic.val == 1.0
  {
    var total := r + t + m;
    assert r / total + t / total + m / total == (r + t + m) / total;
  }

  /** All three scores zero (a zero embedding, for one): every share is
      0 / 0, NaN, every comparison fails and no function is predicted. */
  lemma ZeroScoresPredictNothing()
    ensures FractionsOf(Fin(0.0), Fin(0.0), Fin(0.0)) == Fractions(NaN, NaN, NaN)
    ensures Decide(FractionsOf(Fin(0.0), Fin(0.0), Fin(0.0))) == NoSingleFunction
  {
    var zero := Fin(0.0);
    assert Add(Add(zero, zero), zero) == zero;
    assert Div(zero, zero) == NaN;
  }

  /** A zero total with non-zero scores divides them by zero into infinities,
      and an infinite share passes the dominance test: scores 1, -1 and 0
      predict a dominant ribosomal function. */
  lemma ZeroTotalCanDominate()
    ensures FractionsOf(Fin(1.0), Fin(-1.0), Fin(0.0)) == Fractions(PosInf, NegInf, NaN)
    ensures Decide(FractionsOf(Fin(1.0), Fin(-1.0), Fin(0.0))) == Dominant(Ribosomal)
  {
  }

  /** A NaN anywhere in the embedding (the palindrome share of a sequence
      with no k-mer, for one) makes every score and every share NaN, and no
      function is predicted. */
  lemma NaNComponentPredictsNothing(emb: seq<Ext>, i: nat)
    requires |emb| == 5 && i < 5 && emb[i].NaN?
    ensures var f := FractionsOf(Dot(emb, RibosomalPrototype), Dot(emb, MobilePrototype), Dot(emb, MetabolicPrototype));
      f == Fractions(NaN, NaN, NaN) && Decide(f) == NoSingleFunction
  {
  }
}
