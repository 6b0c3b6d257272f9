/**
 What the extractor is for: fed independent flips of one coin of unknown bias, every output of a
 given length is equally likely, and it never produces more bits than its input holds. A whole run may
 use another coin for every block; coins that differ inside a block can make the output unfair.
 */
module Unbiased {
  import opened Arithmetic
  import opened Extractor
  import opened Packing
  import opened Stream

  // ---------------------------------------------------------------------------
  // Finite sets of bit strings

  /** All bit strings of length n. */
  ghost function Strings(n: nat): (s: set<seq<Bit>>)
    ensures forall x :: x in s <==> |x| == n
  {
    if n == 0 then {[]}
    else
      var s := Prefixed(0, Strings(n - 1)) + Prefixed(1, Strings(n - 1));
      assert forall x: seq<Bit> :: |x| == n ==> x == [x[0]] + x[1..];
      s
  }

  ghost function Prefixed(b: Bit, s: set<seq<Bit>>): set<seq<Bit>>
  {
    Image(s, x => [b] + x)
  }

  ghost function Image(s: set<seq<Bit>>, f: seq<Bit> --> seq<Bit>): set<seq<Bit>>
    requires forall x :: x in s ==> f.requires(x)
  {
    set x | x in s :: f(x)
  }

  ghost predicate Injective(s: set<seq<Bit>>, f: seq<Bit> --> seq<Bit>)
    requires forall x :: x in s ==> f.requires(x)
  {
    forall x, y :: x in s && y in s && f(x) == f(y) ==> x == y
  }

  ghost function Pick(s: set<seq<Bit>>): (x: seq<Bit>)
    requires s != {}
    ensures x in s
  {
    var x :| x in s; x
  }

  lemma {:induction false} ImageSize(s: set<seq<Bit>>, f: seq<Bit> --> seq<Bit>)
    requires forall x :: x in s ==> f.requires(x)
    requires Injective(s, f)
    ensures |Image(s, f)| == |s|
  {
    if s != {} {
      var x := Pick(s);
      ImageSize(s - {x}, f);
      assert Image(s, f) == Image(s - {x}, f) + {f(x)};
    }
  }

  lemma {:induction false} SubsetSize(a: set<seq<Bit>>, b: set<seq<Bit>>)
    requires a <= b
    ensures |a| <= |b|
  {
    if a != {} {
      var x := Pick(a);
      SubsetSize(a - {x}, b - {x});
    }
  }

  lemma {:induction false} PrefixedSize(b: Bit, s: set<seq<Bit>>)
    ensures |Prefixed(b, s)| == |s|
  {
    var f := (x: seq<Bit>) => [b] + x;
    forall x, y | x in s && y in s && f(x) == f(y) ensures x == y {
      assert f(x)[1..] == x && f(y)[1..] == y;
    }
    ImageSize(s, f);
  }

  // ---------------------------------------------------------------------------
  // The information bound

  /** Binomial coefficients, by Pascal's rule. */
  function Choose(n: nat, k: nat): nat
  {
    if k == 0 then 1 else if n == 0 then 0 else Choose(n - 1, k - 1) + Choose(n - 1, k)
  }

  lemma {:induction false} ChooseAllOrNone(n: nat, k: nat)
    ensures k > n ==> Choose(n, k) == 0
    ensures k == 0 || k == n ==> Choose(n, k) == 1
  {
    if n > 0 && k > 0 {
      ChooseAllOrNone(n - 1, k - 1);
      ChooseAllOrNone(n - 1, k);
    }
  }

  ghost function WithOnes(n: nat, k: nat): (s: set<seq<Bit>>)
  {
    set x | x in Strings(n) && Ones(x) == k
  }

  lemma {:induction false} StringsSplit(n: nat)
    requires n > 0
    ensures Strings(n) == Prefixed(0, Strings(n - 1)) + Prefixed(1, Strings(n - 1))
    ensures Prefixed(0, Strings(n - 1)) !! Prefixed(1, Strings(n - 1))
  {
    var a, b := Prefixed(0, Strings(n - 1)), Prefixed(1, Strings(n - 1));
    forall x | x in a ensures x !in b {
      assert x[0] == 0;
    }
  }

  lemma {:induction false} StringsSize(n: nat)
    ensures |Strings(n)| == Pow2(n)
  {
    if n > 0 {
      hide Strings, Prefixed;
      StringsSize(n - 1);
      StringsSplit(n);
      PrefixedSize(0, Strings(n - 1));
      PrefixedSize(1, Strings(n - 1));
    }
  }

  lemma {:induction false} WithOnesSize(n: nat, k: nat)
    ensures |WithOnes(n, k)| == Choose(n, k)
  {
    hide WithOnes;
    if n == 0 {
      WithOnesOfEmpty(k);
    } else {
      WithOnesSize(n - 1, k);
      PascalStep(n, k);
      if k > 0 {
        WithOnesSize(n - 1, k - 1);
      }
    }
  }

  lemma {:induction false} WithOnesOfEmpty(k: nat)
    ensures |WithOnes(0, k)| == if k == 0 then 1 else 0
  {
    assert WithOnes(0, k) == if k == 0 then {[]} else {};
  }

  lemma {:induction false} PascalStep(n: nat, k: nat)
    requires n > 0
    ensures |WithOnes(n, k)| == |WithOnes(n - 1, k)| + if k == 0 then 0 else |WithOnes(n - 1, k - 1)|
  {
    var zeros := Prefixed(0, WithOnes(n - 1, k));
    PrefixedSize(0, WithOnes(n - 1, k));
    if k == 0 {
      WithOnesSplit(n, k, zeros, {});
    } else {
      WithOnesSplit(n, k, zeros, Prefixed(1, WithOnes(n - 1, k - 1)));
      PrefixedSize(1, WithOnes(n - 1, k - 1));
    }
  }

  lemma {:induction false} WithOnesSplit(n: nat, k: nat, zeros: set<seq<Bit>>, ones: set<seq<Bit>>)
    requires n > 0
    requires zeros == Prefixed(0, WithOnes(n - 1, k))
    requires ones == if k == 0 then {} else Prefixed(1, WithOnes(n - 1, k - 1))
    ensures WithOnes(n, k) == zeros + ones && zeros !! ones
  {
    forall x | x in WithOnes(n, k) ensures x in zeros + ones {
      assert x == [x[0]] + x[1..];
      if x[0] == 0 {
        assert x[1..] in WithOnes(n - 1, k);
      } else {
        assert x[1..] in WithOnes(n - 1, k - 1);
      }
    }
    forall x | x in zeros ensures x in WithOnes(n, k) && x[0] == 0 {
      var y :| y in WithOnes(n - 1, k) && x == [0] + y;
      OnesCons(0, y);
    }
    forall x | x in ones ensures x in WithOnes(n, k) && x[0] == 1 {
      var y :| y in WithOnes(n - 1, k - 1) && x == [1] + y;
      OnesCons(1, y);
    }
  }

  /**
   The extractor never claims more bits than the input carries: the inputs that share x's length
   and number of ones are at least as many as the outputs of the length it produced.
   */
  lemma {:induction false} InformationBound(x: seq<Bit>)
    ensures Pow2(|Extract(x)|) <= Choose(|x|, Ones(x))
  {
    var targets := Strings(|Extract(x)|);
    var f := (w: seq<Bit>) requires |w| == |Extract(x)| => Steer(x, w);
    forall v, w | v in targets && w in targets && f(v) == f(w) ensures v == w {
      assert Extract(f(v)) == v && Extract(f(w)) == w;
    }
    ImageSize(targets, f);
    StringsSize(|Extract(x)|);
    assert Image(targets, f) <= WithOnes(|x|, Ones(x));
    SubsetSize(Image(targets, f), WithOnes(|x|, Ones(x)));
    WithOnesSize(|x|, Ones(x));
  }

  /** An input that never varies carries no information, and yields nothing. */
  lemma {:induction false} ConstantInputYieldsNothing(x: seq<Bit>)
    requires forall i, j :: 0 <= i < j < |x| ==> x[i] == x[j]
    ensures Extract(x) == []
  {
    ConstantOnes(x);
    ChooseAllOrNone(|x|, Ones(x));
    InformationBound(x);
  }

  lemma {:induction false} ConstantOnes(x: seq<Bit>)
    requires forall i, j :: 0 <= i < j < |x| ==> x[i] == x[j]
    ensures Ones(x) == if x != [] && x[0] == 1 then |x| else 0
  {
    if x != [] {
      ConstantOnes(x[1..]);
      assert |x| > 1 ==> x[1..][0] == x[0];
    }
  }

  // ---------------------------------------------------------------------------
  // The chance of an output

  /** For every flip, the chance that it is a one. */
  type Bias = nat -> real

  /** The chance that independent flips, from flip k on, come out as x. */
  function Weight(x: seq<Bit>, p: Bias, k: nat): real
  {
    if x == [] then 1.0 else Flip(x[0], p(k)) * Weight(x[1..], p, k + 1)
  }

  function Flip(b: Bit, q: real): real
  {
    if b == 1 then q else 1.0 - q
  }

  ghost function Sum(s: set<seq<Bit>>, p: Bias, k: nat): real
  {
    if s == {} then 0.0 else var x := Pick(s); Weight(x, p, k) + Sum(s - {x}, p, k)
  }

  /** The n flips from flip k on are flips of one coin. */
  ghost predicate OneCoin(p: Bias, k: nat, n: nat)
  {
    forall i :: k <= i < k + n ==> p(i) == p(k)
  }

  /** The chance that n flips make the extractor output w. */
  ghost function Chance(n: nat, w: seq<Bit>, p: Bias): real
  {
    Sum(Producing(n, w), p, 0)
  }

  ghost function Producing(n: nat, w: seq<Bit>): set<seq<Bit>>
  {
    set x | x in Strings(n) && Extract(x) == w
  }

  /** The chance that n flips make the extractor output one of the strings in ws. */
  ghost function ChanceOfAny(n: nat, ws: set<seq<Bit>>, p: Bias): real
  {
    Sum(ProducingAny(n, ws), p, 0)
  }

  ghost function ProducingAny(n: nat, ws: set<seq<Bit>>): set<seq<Bit>>
  {
    set x | x in Strings(n) && Extract(x) in ws
  }

  lemma {:induction false} SumRemove(s: set<seq<Bit>>, y: seq<Bit>, p: Bias, k: nat)
    requires y in s
    ensures Sum(s, p, k) == Weight(y, p, k) + Sum(s - {y}, p, k)
  {
    var x := Pick(s);
    if x != y {
      SumRemove(s - {x}, y, p, k);
      SumRemove(s - {y}, x, p, k);
      assert s - {x} - {y} == s - {y} - {x};
    }
  }

  lemma {:induction false} SumEmpty(p: Bias, k: nat)
    ensures Sum({}, p, k) == 0.0
  {
  }

  lemma {:induction false} SumUnion(a: set<seq<Bit>>, b: set<seq<Bit>>, p: Bias, k: nat)
    requires a !! b
    ensures Sum(a + b, p, k) == Sum(a, p, k) + Sum(b, p, k)
  {
    if a == {} {
      assert a + b == b;
    } else {
      var x := Pick(a);
      SumUnion(a - {x}, b, p, k);
      SumRemove(a + b, x, p, k);
      assert a + b - {x} == (a - {x}) + b;
    }
  }

  lemma {:induction false} SumPrefixed(b: Bit, s: set<seq<Bit>>, p: Bias, k: nat)
    ensures Sum(Prefixed(b, s), p, k) == Flip(b, p(k)) * Sum(s, p, k + 1)
  {
    hide Sum, Prefixed, Flip;
    if s == {} {
      SumPrefixedNone(b, p, k);
    } else {
      var x := Pick(s);
      SumPrefixed(b, s - {x}, p, k);
      SumPrefixedStep(b, s, x, p, k);
    }
  }

  lemma {:induction false} SumPrefixedNone(b: Bit, p: Bias, k: nat)
    ensures Sum(Prefixed(b, {}), p, k) == 0.0 && Sum({}, p, k + 1) == 0.0
  {
    assert Prefixed(b, {}) == {};
  }

  lemma {:induction false} SumPrefixedStep(b: Bit, s: set<seq<Bit>>, x: seq<Bit>, p: Bias, k: nat)
    requires x in s && Sum(Prefixed(b, s - {x}), p, k) == Flip(b, p(k)) * Sum(s - {x}, p, k + 1)
    ensures Sum(Prefixed(b, s), p, k) == Flip(b, p(k)) * Sum(s, p, k + 1)
  {
    hide *;
    PrefixedRemove(b, s, x);
    SumRemove(Prefixed(b, s), [b] + x, p, k);
    SumRemove(s, x, p, k + 1);
    WeightCons(b, x, p, k);
    Distribute(Flip(b, p(k)), Weight(x, p, k + 1), Sum(s - {x}, p, k + 1));
  }

  lemma {:induction false} PrefixedRemove(b: Bit, s: set<seq<Bit>>, x: seq<Bit>)
    requires x in s
    ensures [b] + x in Prefixed(b, s)
    ensures Prefixed(b, s) - {[b] + x} == Prefixed(b, s - {x})
  {
    forall y | y in s && [b] + y == [b] + x ensures y == x {
      assert ([b] + y)[1..] == y && ([b] + x)[1..] == x;
    }
  }

  lemma {:induction false} WeightCons(b: Bit, x: seq<Bit>, p: Bias, k: nat)
    ensures Weight([b] + x, p, k) == Flip(b, p(k)) * Weight(x, p, k + 1)
  {
    assert ([b] + x)[1..] == x;
  }

  lemma {:induction false} Distribute(c: real, x: real, y: real)
    ensures c * (x + y) == c * x + c * y
  {
  }

  /** The chances of all strings of length n add up to one, whatever the coins. */
  lemma {:induction false} TotalChance(n: nat, p: Bias, k: nat)
    ensures Sum(Strings(n), p, k) == 1.0
    decreases n
  {
    hide Strings, Sum;
    if n == 0 {
      EmptyStringChance(p, k);
    } else {
      TotalChance(n - 1, p, k + 1);
      TotalChanceStep(n, p, k);
    }
  }

  lemma {:induction false} EmptyStringChance(p: Bias, k: nat)
    ensures Sum(Strings(0), p, k) == 1.0
  {
    hide Sum;
    var s: set<seq<Bit>> := {[]};
    assert Strings(0) == s;
    SumRemove(s, [], p, k);
    assert s - {[]} == {};
    SumEmpty(p, k);
  }

  lemma {:induction false} TotalChanceStep(n: nat, p: Bias, k: nat)
    requires n > 0 && Sum(Strings(n - 1), p, k + 1) == 1.0
    ensures Sum(Strings(n), p, k) == 1.0
  {
    hide Strings, Prefixed, Sum;
    StringsSplit(n);
    SumUnion(Prefixed(0, Strings(n - 1)), Prefixed(1, Strings(n - 1)), p, k);
    SumPrefixed(0, Strings(n - 1), p, k);
    SumPrefixed(1, Strings(n - 1), p, k);
  }

  /** With one coin, the chance of a string depends only on its length and its number of ones. */
  lemma {:induction false} WeightByOnes(x: seq<Bit>, p: Bias, k: nat, q: real)
    requires forall i :: k <= i < k + |x| ==> p(i) == q
    ensures Weight(x, p, k) == Weighted(Ones(x), |x| - Ones(x), q)
    decreases |x|
  {
    if x != [] {
      WeightByOnes(x[1..], p, k + 1, q);
      WeightByOnesStep(x[0], x[1..], p, k, q);
      assert x == [x[0]] + x[1..];
    }
  }

  lemma {:induction false} WeightByOnesStep(b: Bit, x: seq<Bit>, p: Bias, k: nat, q: real)
    requires p(k) == q && Weight(x, p, k + 1) == Weighted(Ones(x), |x| - Ones(x), q)
    ensures Weight([b] + x, p, k) == Weighted(Ones([b] + x), |x| + 1 - Ones([b] + x), q)
  {
    hide Weight, Weighted, Ones;
    OnesCons(b, x);
    WeightCons(b, x, p, k);
    WeightedSuccessor(Ones(x), |x| - Ones(x), q);
  }

  /** The chance of a given string of k ones and z zeros: the ones first. */
  function Weighted(k: nat, z: nat, q: real): real
  {
    if k > 0 then q * Weighted(k - 1, z, q)
    else if z > 0 then (1.0 - q) * Weighted(0, z - 1, q)
    else 1.0
  }

  lemma {:induction false} WeightedSuccessor(k: nat, z: nat, q: real)
    ensures Weighted(k + 1, z, q) == q * Weighted(k, z, q)
    ensures Weighted(k, z + 1, q) == (1.0 - q) * Weighted(k, z, q)
  {
    if k > 0 {
      WeightedSuccessor(k - 1, z, q);
      Commute(q, 1.0 - q, Weighted(k - 1, z, q));
    }
  }

  lemma {:induction false} Commute(a: real, b: real, c: real)
    ensures a * (b * c) == b * (a * c)
  {
  }

  lemma {:induction false} SameOnesWeight(x: seq<Bit>, y: seq<Bit>, p: Bias, k: nat)
    requires |x| == |y| && Ones(x) == Ones(y) && OneCoin(p, k, |x|)
    ensures Weight(x, p, k) == Weight(y, p, k)
  {
    hide Weight, Ones;
    WeightByOnes(x, p, k, p(k));
    WeightByOnes(y, p, k, p(k));
  }

  /** f carries the strings of s to strings of t of the same chance, and g carries them back. */
  ghost predicate Carries(s: set<seq<Bit>>, t: set<seq<Bit>>,
                          f: map<seq<Bit>, seq<Bit>>, g: map<seq<Bit>, seq<Bit>>, p: Bias)
  {
    forall x :: x in s ==>
      x in f && f[x] in t && Weight(f[x], p, 0) == Weight(x, p, 0) && f[x] in g && g[f[x]] == x
  }

  /** Two sets whose strings can be matched up, chance for chance, are equally likely. */
  lemma {:induction false} SumMatched(s: set<seq<Bit>>, t: set<seq<Bit>>,
                                      f: map<seq<Bit>, seq<Bit>>, g: map<seq<Bit>, seq<Bit>>, p: Bias)
    requires Carries(s, t, f, g, p) && Carries(t, s, g, f, p)
    ensures Sum(s, p, 0) == Sum(t, p, 0)
  {
    hide Weight;
    if s == {} {
      if t != {} {
        var y := Pick(t);
        assert false;
      }
    } else {
      var x := Pick(s);
      SumMatched(s - {x}, t - {f[x]}, f, g, p);
      SumRemove(t, f[x], p, 0);
    }
  }

  ghost function SteerAll(n: nat, v: seq<Bit>, w: seq<Bit>): map<seq<Bit>, seq<Bit>>
    requires |v| == |w|
  {
    map x | x in Producing(n, v) :: Steer(x, w)
  }

  lemma {:induction false} SteeringCarries(n: nat, v: seq<Bit>, w: seq<Bit>, p: Bias)
    requires |v| == |w| && OneCoin(p, 0, n)
    ensures Carries(Producing(n, v), Producing(n, w), SteerAll(n, v, w), SteerAll(n, w, v), p)
  {
    hide Extract, Steer, Weight, OneCoin;
    forall x | x in Producing(n, v)
      ensures var y := Steer(x, w);
              y in Producing(n, w) && Weight(y, p, 0) == Weight(x, p, 0) && Steer(y, v) == x
    {
      Exchange(x, w);
      SameOnesWeight(Steer(x, w), x, p, 0);
    }
  }

  /** Whatever the bias of the coin, two outputs of the same length are equally likely. */
  lemma {:induction false} EqualChance(n: nat, v: seq<Bit>, w: seq<Bit>, p: Bias)
    requires |v| == |w| && OneCoin(p, 0, n)
    ensures Chance(n, v, p) == Chance(n, w, p)
  {
    hide Sum, Carries, Producing, SteerAll;
    SteeringCarries(n, v, w, p);
    SteeringCarries(n, w, v, p);
    SumMatched(Producing(n, v), Producing(n, w), SteerAll(n, v, w), SteerAll(n, w, v), p);
  }

  function Times(k: nat, r: real): real
  {
    if k == 0 then 0.0 else r + Times(k - 1, r)
  }

  lemma {:induction false} ChanceAdds(n: nat, ws: set<seq<Bit>>, w: seq<Bit>, p: Bias)
    requires OneCoin(p, 0, n) && forall v :: v in ws ==> |v| == |w|
    ensures ChanceOfAny(n, ws, p) == Times(|ws|, Chance(n, w, p))
  {
    hide Extract, Sum, Strings, OneCoin;
    if ws == {} {
      assert ProducingAny(n, ws) == {};
      assert ChanceOfAny(n, ws, p) == 0.0 by { SumEmpty(p, 0); }
    } else {
      var v := Pick(ws);
      ChanceAdds(n, ws - {v}, w, p);
      EqualChance(n, v, w, p);
      SumUnion(Producing(n, v), ProducingAny(n, ws - {v}), p, 0);
      assert ProducingAny(n, ws) == Producing(n, v) + ProducingAny(n, ws - {v});
    }
  }

  lemma {:induction false} TimesIsProduct(k: nat, r: real)
    ensures Times(k, r) == k as real * r
  {
    if k > 0 {
      TimesIsProduct(k - 1, r);
      Distribute(r, (k - 1) as real, 1.0);
    }
  }

  /**
   Given that n flips of a coin of any bias produce |w| bits, the output is w with chance exactly
   one in 2^|w|: the bits are independent and fair.
   */
  lemma {:induction false} FairGivenLength(n: nat, w: seq<Bit>, p: Bias)
    requires OneCoin(p, 0, n)
    ensures ChanceOfAny(n, Strings(|w|), p) == Pow2(|w|) as real * Chance(n, w, p)
  {
    hide *;
    ChanceAdds(n, Strings(|w|), w, p);
    StringsSize(|w|);
    TimesIsProduct(Pow2(|w|), Chance(n, w, p));
  }

  // ---------------------------------------------------------------------------
  // The chance of the bytes a whole run writes

  /** The collected streams of n bits for which exactly these bytes are emitted. */
  ghost function Emitting(n: nat, bytes: seq<Byte>): set<seq<Bit>>
  {
    set t | t in Strings(n) && Emitted(Debias(t)) == bytes
  }

  ghost function SteerAllOutput(n: nat, v: seq<Byte>, w: seq<Byte>): map<seq<Bit>, seq<Bit>>
    requires |v| == |w|
  {
    map t | t in Emitting(n, v) :: SteerOutput(t, w)
  }

  /** Every block of n flips, from flip k on, is flipped with one coin; different blocks may use different coins. */
  ghost predicate CoinPerBlock(p: Bias, k: nat, n: nat)
    decreases n
  {
    n >= BLOCK_BITS ==> OneCoin(p, k, BLOCK_BITS) && CoinPerBlock(p, k + BLOCK_BITS, n - BLOCK_BITS)
  }

  lemma {:induction false} OutputSteeringCarries(n: nat, v: seq<Byte>, w: seq<Byte>, p: Bias)
    requires |v| == |w| && CoinPerBlock(p, 0, n)
    ensures Carries(Emitting(n, v), Emitting(n, w), SteerAllOutput(n, v, w), SteerAllOutput(n, w, v), p)
  {
    hide Emitted, Debias, SteerOutput, Weight, CoinPerBlock;
    forall t | t in Emitting(n, v)
      ensures var r := SteerOutput(t, w);
              r in Emitting(n, w) && Weight(r, p, 0) == Weight(t, p, 0) && SteerOutput(r, v) == t
    {
      OutputExchange(t, w);
      SameBlockOnesWeight(SteerOutput(t, w), t, p, 0);
    }
  }

  /**
   Whatever the biases of the blocks, two byte strings of the same length are equally likely to be what a run
   over n collected bits has emitted.
   */
  lemma {:induction false} EqualOutputChance(n: nat, v: seq<Byte>, w: seq<Byte>, p: Bias)
    requires |v| == |w| && CoinPerBlock(p, 0, n)
    ensures Sum(Emitting(n, v), p, 0) == Sum(Emitting(n, w), p, 0)
  {
    hide Sum, Carries, Emitting, SteerAllOutput, CoinPerBlock;
    OutputSteeringCarries(n, v, w, p);
    OutputSteeringCarries(n, w, v, p);
    SumMatched(Emitting(n, v), Emitting(n, w), SteerAllOutput(n, v, w), SteerAllOutput(n, w, v), p);
  }

  /** The bits of a byte string, and the bytes of a bit string. */
  function AllUnpacked(bytes: seq<Byte>): (r: seq<Bit>)
    ensures |r| == 8 * |bytes|
  {
    if bytes == [] then [] else UnpackLsb(bytes[0]) + AllUnpacked(bytes[1..])
  }

  function AllPacked(v: seq<Bit>): (r: seq<Byte>)
    requires |v| % 8 == 0
    ensures |r| == |v| / 8
  {
    if v == [] then [] else [PackLsb(v[..8])] + AllPacked(v[8..])
  }

  lemma {:induction false} UnpackOfPacked(v: seq<Bit>)
    requires |v| % 8 == 0
    ensures AllUnpacked(AllPacked(v)) == v
  {
    hide PackLsb, UnpackLsb;
    if v != [] {
      UnpackOfPacked(v[8..]);
      UnpackOfPack(v[..8]);
      var first, rest := PackLsb(v[..8]), AllPacked(v[8..]);
      assert ([first] + rest)[1..] == rest;
    }
  }

  lemma {:induction false} PackOfUnpacked(bytes: seq<Byte>)
    ensures AllPacked(AllUnpacked(bytes)) == bytes
  {
    hide PackLsb, UnpackLsb;
    if bytes != [] {
      PackOfUnpacked(bytes[1..]);
      PackOfUnpack(bytes[0]);
      var v := AllUnpacked(bytes);
      assert v[..8] == UnpackLsb(bytes[0]) && v[8..] == AllUnpacked(bytes[1..]);
    }
  }

  ghost function EmittingAny(n: nat, ws: set<seq<Bit>>): set<seq<Bit>>
  {
    set t | t in Strings(n) && AllUnpacked(Emitted(Debias(t))) in ws
  }

  /** The collected streams of n bits for which this many bytes are emitted. */
  ghost function EmittingCount(n: nat, count: nat): set<seq<Bit>>
  {
    set t | t in Strings(n) && |Emitted(Debias(t))| == count
  }

  lemma {:induction false} EmittingOneMore(n: nat, ws: set<seq<Bit>>, v: seq<Bit>)
    requires v in ws && |v| % 8 == 0
    ensures EmittingAny(n, ws) == Emitting(n, AllPacked(v)) + EmittingAny(n, ws - {v})
    ensures Emitting(n, AllPacked(v)) !! EmittingAny(n, ws - {v})
  {
    hide Emitted, Debias, AllPacked, AllUnpacked, Strings;
    UnpackOfPacked(v);
    forall t | t in Strings(n)
      ensures Emitted(Debias(t)) == AllPacked(v) <==> AllUnpacked(Emitted(Debias(t))) == v
    {
      PackOfUnpacked(Emitted(Debias(t)));
    }
  }

  lemma {:induction false} OutputChanceAdds(n: nat, ws: set<seq<Bit>>, w: seq<Byte>, p: Bias)
    requires CoinPerBlock(p, 0, n) && forall v :: v in ws ==> |v| == 8 * |w|
    ensures Sum(EmittingAny(n, ws), p, 0) == Times(|ws|, Sum(Emitting(n, w), p, 0))
  {
    hide Sum, Emitting, CoinPerBlock;
    if ws == {} {
      assert EmittingAny(n, ws) == {};
      SumEmpty(p, 0);
    } else {
      hide EmittingAny;
      var v := Pick(ws);
      OutputChanceAdds(n, ws - {v}, w, p);
      EqualOutputChance(n, AllPacked(v), w, p);
      EmittingOneMore(n, ws, v);
      SumUnion(Emitting(n, AllPacked(v)), EmittingAny(n, ws - {v}), p, 0);
    }
  }

  /** Given how many bytes a run has emitted, they are w with chance exactly one in 2^(8 |w|). */
  lemma {:induction false} FairOutput(n: nat, w: seq<Byte>, p: Bias)
    requires CoinPerBlock(p, 0, n)
    ensures Sum(EmittingCount(n, |w|), p, 0) == Pow2(8 * |w|) as real * Sum(Emitting(n, w), p, 0)
  {
    hide *;
    OutputChanceAdds(n, Strings(8 * |w|), w, p);
    StringsSize(8 * |w|);
    TimesIsProduct(Pow2(8 * |w|), Sum(Emitting(n, w), p, 0));
    CountIsLength(n, |w|);
  }

  lemma {:induction false} CountIsLength(n: nat, count: nat)
    ensures EmittingAny(n, Strings(8 * count)) == EmittingCount(n, count)
  {
    hide Emitted, Debias, AllUnpacked, Strings;
  }

  lemma {:induction false} SameBlockOnesWeight(r: seq<Bit>, t: seq<Bit>, p: Bias, k: nat)
    requires SameBlockOnes(r, t) && CoinPerBlock(p, k, |t|)
    ensures |r| == |t| && Weight(r, p, k) == Weight(t, p, k)
    decreases |t|
  {
    hide Weight, OneCoin, Ones;
    if |t| >= BLOCK_BITS {
      var r0, r1, t0, t1 := r[..BLOCK_BITS], r[BLOCK_BITS..], t[..BLOCK_BITS], t[BLOCK_BITS..];
      SameBlockOnesWeight(r1, t1, p, k + BLOCK_BITS);
      SameOnesWeight(r0, t0, p, k);
      assert r == r0 + r1 && t == t0 + t1;
      WeightAppend(r0, r1, p, k);
      WeightAppend(t0, t1, p, k);
    }
  }

  lemma {:induction false} WeightAppend(x: seq<Bit>, y: seq<Bit>, p: Bias, k: nat)
    ensures Weight(x + y, p, k) == Weight(x, p, k) * Weight(y, p, k + |x|)
    decreases |x|
  {
    if x == [] {
      assert x + y == y;
    } else {
      WeightAppend(x[1..], y, p, k + 1);
      assert x + y == [x[0]] + (x[1..] + y) && x == [x[0]] + x[1..];
      hide Weight;
      WeightCons(x[0], x[1..] + y, p, k);
      WeightCons(x[0], x[1..], p, k);
      Associate(Flip(x[0], p(k)), Weight(x[1..], p, k + 1), Weight(y, p, k + |x|));
    }
  }

  lemma {:induction false} Associate(a: real, b: real, c: real)
    ensures a * (b * c) == (a * b) * c
  {
  }
}
