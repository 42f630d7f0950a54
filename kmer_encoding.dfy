/** Bit-packed k-mer keys: every base takes two bits (A=0, C=1, G=2, T=3),
    the first base of the k-mer in the most significant position. */
module KmerEncoding {
  import opened Errors

  /** 2^64: the key is an unsigned 64-bit word. */
  const WordModulus: nat := 0x1_0000_0000_0000_0000

  /** The largest 64-bit value, which the source reserves to mark an empty slot. */
  const EmptyKey: nat := 0xFFFF_FFFF_FFFF_FFFF

  predicate IsBase(c: char) {
    c == 'A' || c == 'C' || c == 'G' || c == 'T'
  }

  predicate AllBases(s: seq<char>) {
    forall i :: 0 <= i < |s| ==> IsBase(s[i])
  }

  function Pow4(n: nat): (p: nat)
    ensures p >= 1
  {
    if n == 0 then 1 else 4 * Pow4(n - 1)
  }

  /** The base that a two-bit digit stands for. */
  function BaseChar(d: nat): (c: char)
    requires d < 4
    ensures IsBase(c)
  {
    if d == 0 then 'A' else if d == 1 then 'C' else if d == 2 then 'G' else 'T'
  }

  /** The two-bit digit of a base, or InvalidBase for any other character. */
  function BaseToInt(c: char): (r: Result<nat>)
    ensures r.Ok? <==> IsBase(c)
    ensures r.Err? ==> r.error == InvalidBase
    ensures r.Ok? ==> r.value < 4 && BaseChar(r.value) == c
  {
    match c
    case 'A' => Ok(0)
    case 'C' => Ok(1)
    case 'G' => Ok(2)
    case 'T' => Ok(3)
    case _ => Err(InvalidBase)
  }

  function Digit(c: char): (d: nat)
    requires IsBase(c)
    ensures d < 4 && BaseChar(d) == c
  {
    BaseToInt(c).value
  }

  /** The key of a string over {A,C,G,T}: its base-4 numeral, first base most
      significant. */
  function Encode(s: seq<char>): (key: nat)
    requires AllBases(s)
    ensures key < Pow4(|s|)
  {
    if s == [] then 0 else Encode(s[..|s| - 1]) * 4 + Digit(s[|s| - 1])
  }

  /** The inverse of Encode: the n bases whose numeral is key. */
  function Decode(key: nat, n: nat): (s: seq<char>)
    requires key < Pow4(n)
    ensures |s| == n && AllBases(s)
  {
    if n == 0 then [] else Decode(key / 4, n - 1) + [BaseChar(key % 4)]
  }

  lemma {:induction false} DecodeEncode(s: seq<char>)
    requires AllBases(s)
    ensures Decode(Encode(s), |s|) == s
  {
    if s != [] {
      var init := s[..|s| - 1];
      DecodeEncode(init);
      var key := Encode(s);
      assert key / 4 == Encode(init) && key % 4 == Digit(s[|s| - 1]);
      assert s == init + [s[|s| - 1]];
    }
  }

  lemma {:induction false} EncodeDecode(key: nat, n: nat)
    requires key < Pow4(n)
    ensures Encode(Decode(key, n)) == key
  {
    if n > 0 {
      var s := Decode(key, n);
      EncodeDecode(key / 4, n - 1);
      assert s[..|s| - 1] == Decode(key / 4, n - 1);
      assert s[|s| - 1] == BaseChar(key % 4);
    }
  }

  /** Distinct k-mers of one length have distinct keys. */
  lemma EncodeInjective(s: seq<char>, t: seq<char>)
    requires AllBases(s) && AllBases(t) && |s| == |t|
    ensures Encode(s) == Encode(t) ==> s == t
  {
    DecodeEncode(s);
    DecodeEncode(t);
  }

  lemma {:induction false} Pow4Monotone(m: nat, n: nat)
    requires m <= n
    ensures Pow4(m) <= Pow4(n)
  {
    if m < n {
      Pow4Monotone(m, n - 1);
    }
  }

  lemma {:induction false} Pow4Add(a: nat, b: nat)
    ensures Pow4(a + b) == Pow4(a) * Pow4(b)
  {
    if b > 0 {
      Pow4Add(a, b - 1);
      assert Pow4(a + b) == 4 * Pow4(a + b - 1);
      assert Pow4(a) * Pow4(b) == Pow4(a) * (4 * Pow4(b - 1)) == 4 * (Pow4(a) * Pow4(b - 1));
    }
  }

  lemma Pow4Of32()
    ensures Pow4(31) == 0x4000_0000_0000_0000
    ensures Pow4(32) == WordModulus
  {
    assert Pow4(4) == 256;
    Pow4Add(4, 4);
    Pow4Add(8, 8);
    Pow4Add(16, 15);
    Pow4Add(16, 16);
    assert Pow4(15) == 4 * Pow4(14) && Pow4(14) == 4 * Pow4(13) && Pow4(13) == 4 * Pow4(12);
    Pow4Add(8, 4);
  }

  /** One step of the packing loop: shift the key left by two bits in a 64-bit
      word and OR in the digit (an addition, since the low bits are zero). */
  function ShiftIn(key: nat, d: nat): nat {
    Wrap(key * 4 + d)
  }

  /** Reduction to a 64-bit unsigned word. */
  function Wrap(x: int): nat {
    x % WordModulus
  }

  /** A shift whose result fits the word does not wrap. */
  lemma ShiftInSmall(key: nat, d: nat)
    requires key * 4 + d < WordModulus
    ensures ShiftIn(key, d) == key * 4 + d
  {
  }

  /** Up to 32 bases fit the 64-bit word, so shifting in one more base never
      wraps and extends the key by that base. */
  lemma ShiftInExtends(s: seq<char>, c: char)
    requires AllBases(s) && IsBase(c) && |s| < 32
    ensures AllBases(s + [c])
    ensures ShiftIn(Encode(s), Digit(c)) == Encode(s + [c])
  {
    var t := s + [c];
    assert AllBases(t);
    assert t[..|t| - 1] == s && t[|t| - 1] == c;
    assert Encode(t) == Encode(s) * 4 + Digit(c);
    EncodeFitsWord(t);
    ShiftInSmall(Encode(s), Digit(c));
  }

  /** A key of at most 32 bases fits a 64-bit word. */
  lemma EncodeFitsWord(t: seq<char>)
    requires AllBases(t) && |t| <= 32
    ensures Encode(t) < WordModulus
  {
    Pow4Monotone(|t|, 32);
    Pow4Of32();
  }

  /** encode_kmer: LengthMismatch when the length is not k, otherwise
      InvalidBase at the first character outside {A,C,G,T}, otherwise the key. */
  method EncodeKmer(kmer: seq<char>, k: int) returns (r: Result<nat>)
    requires 1 <= k <= 32
    ensures |kmer| != k ==> r == Err(LengthMismatch)
    ensures |kmer| == k && !AllBases(kmer) ==> r == Err(InvalidBase)
    ensures |kmer| == k && AllBases(kmer) ==> r == Ok(Encode(kmer))
  {
    if |kmer| != k {
      return Err(LengthMismatch);
    }
    var key: nat := 0;
    var i := 0;
    while i < |kmer|
      invariant 0 <= i <= |kmer|
      invariant AllBases(kmer[..i])
      invariant key == Encode(kmer[..i])
    {
      var b := BaseToInt(kmer[i]);
      if b.Err? {
        return Err(InvalidBase);
      }
      ShiftInExtends(kmer[..i], kmer[i]);
      assert kmer[..i + 1] == kmer[..i] + [kmer[i]];
      key := ShiftIn(key, b.value);
      i := i + 1;
    }
    assert kmer[..i] == kmer;
    return Ok(key);
  }

  /** The key of a k-mer is below 4^k; for k <= 31 it therefore never equals
      the empty-slot value 2^64 - 1. */
  lemma KeyBelowSentinel(s: seq<char>)
    requires AllBases(s) && |s| <= 31
    ensures Encode(s) < EmptyKey
  {
    Pow4Monotone(|s|, 31);
    Pow4Of32();
  }

  function AllT(n: nat): (s: seq<char>)
    ensures |s| == n && AllBases(s)
  {
    if n == 0 then [] else AllT(n - 1) + ['T']
  }

  lemma {:induction false} AllTKey(n: nat)
    ensures Encode(AllT(n)) == Pow4(n) - 1
  {
    if n > 0 {
      AllTKey(n - 1);
      assert AllT(n)[..n - 1] == AllT(n - 1);
    }
  }

  /** At k = 32 the k-mer of 32 'T's is a valid key equal to the empty-slot
      value, so a slot holding it reads as empty in the source's table. */
  lemma SentinelCollision()
    ensures AllBases(AllT(32)) && |AllT(32)| == 32
    ensures Encode(AllT(32)) == EmptyKey
  {
    AllTKey(32);
    Pow4Of32();
  }
}
