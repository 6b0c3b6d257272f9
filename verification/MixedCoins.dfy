/**
 Several coins in one block. The daemon collects chunks from all its devices, so the flips of a block need not
 all have the same bias. Then the extractor's output is not fair in general.
 */
module MixedCoins {
  import opened Arithmetic
  import opened Extractor
  import opened Stream
  import opened Unbiased

  // ---------------------------------------------------------------------------
  // The blocks that yield a single bit

  function Repeat(b: Bit, n: nat): (r: seq<Bit>)
    ensures |r| == n && forall i :: 0 <= i < n ==> r[i] == b
  {
    seq(n, _ => b)
  }

  /** A half of all b, and a half of the other bit. */
  function Halves(b: Bit, k: nat): (r: seq<Bit>)
    ensures |r| == 2 * Pow2(k)
  {
    Repeat(b, Pow2(k)) + Repeat(1 - b, Pow2(k))
  }

  lemma {:induction false} PartsOfRepeat(b: Bit, m: nat, y: seq<Bit>)
    ensures var x := Repeat(b, 2 * m) + y;
            && Unequal(x) == Unequal(y) && PairXors(x) == Repeat(0, m) + PairXors(y)
            && EqualBits(x) == Repeat(b, m) + EqualBits(y) && Leftover(x) == Leftover(y)
    decreases m
  {
    hide Unequal, PairXors, EqualBits, Leftover;
    var x := Repeat(b, 2 * m) + y;
    if m == 0 {
      assert x == y && Repeat(0, 0) == [] && Repeat(b, 0) == [];
    } else {
      PartsOfPair(x);
      PartsOfRepeat(b, m - 1, y);
      assert x[2..] == Repeat(b, 2 * (m - 1)) + y;
      assert Repeat(0, m) == [0] + Repeat(0, m - 1) && Repeat(b, m) == [b] + Repeat(b, m - 1);
    }
  }

  lemma {:induction false} PartsOfHalves(b: Bit, k: nat)
    requires k > 0
    ensures var x := Halves(b, k);
            && Unequal(x) == [] && PairXors(x) == Repeat(0, Pow2(k))
            && EqualBits(x) == Halves(b, k - 1) && Leftover(x) == []
  {
    hide Unequal, PairXors, EqualBits, Leftover;
    var m := Pow2(k - 1);
    var tail := Repeat(1 - b, 2 * m);
    PartsOfRepeat(b, m, tail);
    PartsOfRepeat(1 - b, m, []);
    assert tail + [] == tail;
    NoPairs([]);
    assert Repeat(0, m) + (Repeat(0, m) + []) == Repeat(0, 2 * m);
  }

  /** The parts of an input determine it. */
  lemma {:induction false} SameParts(x: seq<Bit>, y: seq<Bit>)
    requires Unequal(x) == Unequal(y) && PairXors(x) == PairXors(y)
    requires EqualBits(x) == EqualBits(y) && Leftover(x) == Leftover(y)
    ensures x == y
  {
    hide Unequal, PairXors, EqualBits, Leftover, Rebuild;
    RebuildOwnParts(x);
    RebuildOwnParts(y);
  }

  lemma {:induction false} NoOnes(x: seq<Bit>)
    requires Ones(x) == 0
    ensures x == Repeat(0, |x|)
  {
    if x != [] {
      NoOnes(x[1..]);
      assert x == [0] + x[1..];
    }
  }

  /** An input of even length in which exactly one pair differs yields at least two bits. */
  lemma {:induction false} OneUnequalPair(x: seq<Bit>)
    requires |x| % 4 == 0 && |Unequal(x)| == 1
    ensures |Extract(x)| >= 2
  {
    hide Extract, Unequal, PairXors, EqualBits, Leftover;
    PairCounts(x);
    ExtractByLevels(x);
    assert |PairXors(x)| % 2 == 0;
    OneOne(PairXors(x));
  }

  /** A single one in an input of even length is in a pair that differs. */
  lemma {:induction false} OneOne(a: seq<Bit>)
    requires |a| % 2 == 0 && Ones(a) == 1
    ensures |Extract(a)| >= 1
  {
    hide Extract, Unequal, PairXors, EqualBits, Leftover;
    PairCounts(a);
    ExtractByLevels(a);
    assert Leftover(a) == [];
    assert Ones([]) == 0;
  }

  /** An input in which no pair differs yields what its doubled bits yield. */
  lemma {:induction false} NoUnequalPair(x: seq<Bit>)
    requires |x| % 2 == 0 && Unequal(x) == []
    ensures PairXors(x) == Repeat(0, |x| / 2) && |EqualBits(x)| == |x| / 2 && Leftover(x) == []
    ensures Extract(x) == Extract(EqualBits(x))
  {
    hide Extract, Unequal, PairXors, EqualBits, Leftover;
    PairCounts(x);
    NoOnes(PairXors(x));
    ConstantInputYieldsNothing(PairXors(x));
    ExtractByLevels(x);
    assert [] + [] + Extract(EqualBits(x)) == Extract(EqualBits(x));
  }

  lemma {:induction false} ExtractTwo(a: Bit, b: Bit)
    ensures Extract([a, b]) == if a != b then [a] else []
  {
    hide Extract, Unequal, PairXors, EqualBits, Leftover;
    PartsOfPair([a, b]);
    assert [a, b][2..] == [];
    NoPairs([]);
    ShortYieldsNothing(PairXors([a, b]));
    ShortYieldsNothing(EqualBits([a, b]));
    ExtractByLevels([a, b]);
  }

  /** Of 2^(k + 1) bits exactly one comes out exactly if they are two constant halves that differ. */
  lemma {:induction false} OneBitOut(x: seq<Bit>, b: Bit, k: nat)
    requires |x| == 2 * Pow2(k)
    ensures Extract(x) == [b] <==> x == Halves(b, k)
    decreases k
  {
    hide Extract, Unequal, PairXors, EqualBits, Leftover;
    if k == 0 {
      ExtractTwo(x[0], x[1]);
      assert x == [x[0], x[1]] && Halves(b, 0) == [b, 1 - b];
      return;
    }
    assert |x| == 4 * Pow2(k - 1);
    PartsOfHalves(b, k);
    if |Unequal(x)| == 0 {
      NoUnequalPair(x);
      OneBitOut(EqualBits(x), b, k - 1);
      if EqualBits(x) == Halves(b, k - 1) {
        SameParts(x, Halves(b, k));
      }
    } else if |Unequal(x)| == 1 {
      OneUnequalPair(x);
    } else {
      ExtractByLevels(x);
    }
  }

  // ---------------------------------------------------------------------------
  // Their chances

  function Power(a: real, n: nat): real
  {
    if n == 0 then 1.0 else a * Power(a, n - 1)
  }

  lemma {:induction false} RepeatWeight(b: Bit, n: nat, p: Bias, k: nat, q: real)
    requires forall i :: k <= i < k + n ==> p(i) == q
    ensures Weight(Repeat(b, n), p, k) == Power(Flip(b, q), n)
    decreases n
  {
    hide Flip;
    if n > 0 {
      RepeatWeight(b, n - 1, p, k + 1, q);
      WeightCons(b, Repeat(b, n - 1), p, k);
      assert Repeat(b, n) == [b] + Repeat(b, n - 1);
    }
  }

  lemma {:induction false} OneProducer(b: Bit, p: Bias, k: nat)
    ensures Chance(2 * Pow2(k), [b], p) == Weight(Halves(b, k), p, 0)
  {
    hide Extract, Weight, Sum, Halves;
    var n, x := 2 * Pow2(k), Halves(b, k);
    forall y | y in Strings(n) ensures Extract(y) == [b] <==> y == x {
      OneBitOut(y, b, k);
    }
    assert Producing(n, [b]) == {x};
    SumRemove({x}, x, p, 0);
    SumEmpty(p, 0);
    assert {x} - {x} == {};
  }

  function Mul(a: real, b: real): real
  {
    a * b
  }

  lemma {:induction false} PowerOfProduct(a: real, b: real, n: nat)
    ensures Power(Mul(a, b), n) == Mul(Power(a, n), Power(b, n))
  {
    if n > 0 {
      PowerOfProduct(a, b, n - 1);
      Regroup(a, b, Power(a, n - 1), Power(b, n - 1));
    }
  }

  lemma {:induction false} Regroup(a: real, b: real, c: real, d: real)
    ensures (a * b) * (c * d) == (a * c) * (b * d)
  {
    Associate(a, b, c * d);
    Commute(b, c, d);
    Associate(a, c, b * d);
  }

  lemma {:induction false} NotNegative(a: real, b: real)
    requires a >= 0.0 && b >= 0.0
    ensures a * b >= 0.0
  {
  }

  lemma {:induction false} Positive(a: real, b: real)
    requires a > 0.0 && b > 0.0
    ensures a * b > 0.0
  {
  }

  lemma {:induction false} PowerGrows(a: real, b: real, n: nat)
    requires 0.0 <= a < b
    ensures 0.0 <= Power(a, n) && 0.0 < Power(b, n) && (n > 0 ==> Power(a, n) < Power(b, n))
  {
    if n > 0 {
      PowerGrows(a, b, n - 1);
      var x, y := Power(a, n - 1), Power(b, n - 1);
      NotNegative(a, x);
      Positive(b, y);
      ProductGrows(a, b, x, y);
    }
  }

  lemma {:induction false} ProductGrows(a: real, b: real, x: real, y: real)
    requires 0.0 <= a < b && 0.0 <= x <= y && 0.0 < y
    ensures a * x < b * y
  {
    NotNegative(a, y - x);
    Distribute(a, y - x, x);
    Positive(b - a, y);
    Distribute(y, b - a, a);
    assert (y - x) + x == y && (b - a) + a == b && y * (b - a) == (b - a) * y && y * a == a * y && y * b == b * y;
  }

  /** Powers of chances determine the chances. */
  lemma {:induction false} PowerEqual(a: real, b: real, n: nat)
    requires a >= 0.0 && b >= 0.0 && n > 0
    ensures Power(a, n) == Power(b, n) <==> a == b
  {
    if a < b {
      PowerGrows(a, b, n);
    } else if b < a {
      PowerGrows(b, a, n);
    }
  }

  function Product(a: real, b: real, c: real, d: real): real
  {
    Mul(Mul(a, b), Mul(c, d))
  }

  lemma {:induction false} PowerOfFour(a: real, b: real, c: real, d: real, n: nat)
    ensures Power(Product(a, b, c, d), n) == Product(Power(a, n), Power(b, n), Power(c, n), Power(d, n))
  {
    hide Power, Mul;
    PowerOfProduct(Mul(a, b), Mul(c, d), n);
    PowerOfProduct(a, b, n);
    PowerOfProduct(c, d, n);
  }

  lemma {:induction false} ProductNotNegative(a: real, b: real, c: real, d: real)
    requires a >= 0.0 && b >= 0.0 && c >= 0.0 && d >= 0.0
    ensures Product(a, b, c, d) >= 0.0
  {
    NotNegative(a, b);
    NotNegative(c, d);
    NotNegative(a * b, c * d);
  }

  /** The four chunks of a block, each flipped with its own coin. */
  ghost predicate FourCoins(p: Bias, q0: real, q1: real, q2: real, q3: real)
  {
    && 0.0 <= q0 <= 1.0 && 0.0 <= q1 <= 1.0 && 0.0 <= q2 <= 1.0 && 0.0 <= q3 <= 1.0
    && (forall i :: 0 <= i < 128 ==> p(i) == q0) && (forall i :: 128 <= i < 256 ==> p(i) == q1)
    && (forall i :: 256 <= i < 384 ==> p(i) == q2) && (forall i :: 384 <= i < 512 ==> p(i) == q3)
  }

  /** The chance that the chunks of a block are all b, all c, all d and all e. */
  lemma {:induction false} ChunksWeight(b: Bit, c: Bit, d: Bit, e: Bit, p: Bias, q0: real, q1: real, q2: real, q3: real)
    requires FourCoins(p, q0, q1, q2, q3)
    ensures Weight((Repeat(b, 128) + Repeat(c, 128)) + (Repeat(d, 128) + Repeat(e, 128)), p, 0) ==
            Power(Product(Flip(b, q0), Flip(c, q1), Flip(d, q2), Flip(e, q3)), 128)
  {
    hide Weight, Power, Flip, Repeat;
    WeightAppend(Repeat(b, 128) + Repeat(c, 128), Repeat(d, 128) + Repeat(e, 128), p, 0);
    WeightAppend(Repeat(b, 128), Repeat(c, 128), p, 0);
    WeightAppend(Repeat(d, 128), Repeat(e, 128), p, 256);
    RepeatWeight(b, 128, p, 0, q0);
    RepeatWeight(c, 128, p, 128, q1);
    RepeatWeight(d, 128, p, 256, q2);
    RepeatWeight(e, 128, p, 384, q3);
    PowerOfFour(Flip(b, q0), Flip(c, q1), Flip(d, q2), Flip(e, q3), 128);
  }

  lemma {:induction false} PowersOfTwo()
    ensures Pow2(8) == 256 && 2 * Pow2(8) == BLOCK_BITS
  {
    assert Pow2(3) == 8;
    assert Pow2(5) == 32;
  }

  lemma {:induction false} BlockChance(b: Bit, p: Bias, q0: real, q1: real, q2: real, q3: real)
    requires FourCoins(p, q0, q1, q2, q3)
    ensures Chance(BLOCK_BITS, [b], p) ==
            Power(Product(Flip(b, q0), Flip(b, q1), Flip(1 - b, q2), Flip(1 - b, q3)), 128)
  {
    hide Chance, Weight, Power, Flip, Product, FourCoins;
    PowersOfTwo();
    OneProducer(b, p, 8);
    ChunksWeight(b, b, 1 - b, 1 - b, p, q0, q1, q2, q3);
    assert Halves(b, 8) == (Repeat(b, 128) + Repeat(b, 128)) + (Repeat(1 - b, 128) + Repeat(1 - b, 128));
  }

  /**
   A block of four chunks, each of its own coin: the outputs 1 and 0 are equally likely if and only if the
   products of the chances of 1, 1, 0, 0 and of 0, 0, 1, 1 are equal.
   */
  lemma {:induction false} FourCoinsFairIff(p: Bias, q0: real, q1: real, q2: real, q3: real)
    requires FourCoins(p, q0, q1, q2, q3)
    ensures Chance(BLOCK_BITS, [1], p) == Chance(BLOCK_BITS, [0], p) <==>
            Product(q0, q1, 1.0 - q2, 1.0 - q3) == Product(1.0 - q0, 1.0 - q1, q2, q3)
  {
    hide Chance, Power, Product;
    BlockChance(1, p, q0, q1, q2, q3);
    BlockChance(0, p, q0, q1, q2, q3);
    ProductNotNegative(q0, q1, 1.0 - q2, 1.0 - q3);
    ProductNotNegative(1.0 - q0, 1.0 - q1, q2, q3);
    PowerEqual(Product(q0, q1, 1.0 - q2, 1.0 - q3), Product(1.0 - q0, 1.0 - q1, q2, q3), 128);
  }

  /** Two coins, one for each half of a block: the outputs 1 and 0 are equally likely only if the biases are equal. */
  lemma {:induction false} TwoCoinsFairIff(p: Bias, q: real, r: real)
    requires FourCoins(p, q, q, r, r)
    ensures Chance(BLOCK_BITS, [1], p) == Chance(BLOCK_BITS, [0], p) <==> q == r
  {
    hide Chance, Product, Power, Mul;
    FourCoinsFairIff(p, q, q, r, r);
    TwoAndTwo(q, 1.0 - r);
    TwoAndTwo(1.0 - q, r);
    UpAndDown(q, r);
    PowerEqual(Mul(q, 1.0 - r), Mul(1.0 - q, r), 2);
  }

  lemma {:induction false} TwoAndTwo(a: real, b: real)
    ensures Product(a, a, b, b) == Power(Mul(a, b), 2)
  {
    Regroup(a, a, b, b);
    var c := Mul(a, b);
    assert Power(c, 2) == c * Power(c, 1) && Power(c, 1) == c * Power(c, 0);
  }

  lemma {:induction false} UpAndDown(q: real, r: real)
    requires 0.0 <= q <= 1.0 && 0.0 <= r <= 1.0
    ensures Mul(q, 1.0 - r) >= 0.0 && Mul(1.0 - q, r) >= 0.0
    ensures Mul(q, 1.0 - r) == Mul(1.0 - q, r) <==> q == r
  {
    NotNegative(q, 1.0 - r);
    NotNegative(1.0 - q, r);
    assert q * (1.0 - r) - (1.0 - q) * r == q - r;
  }
}
