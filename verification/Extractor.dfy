/**
 The Advanced Multi-Level Strategy extractor as a function on bit strings, and the map that
 exchanges inputs: steering an input towards any output of the right length keeps its length
 and its number of ones, and is reversible.
 */
module Extractor {

  type Bit = b: int | b == 0 || b == 1

  function Ones(x: seq<Bit>): (n: nat)
    ensures n <= |x|
  {
    if x == [] then 0 else x[0] + Ones(x[1..])
  }

  // ---------------------------------------------------------------------------
  // One level: the pairs of an input

  /** The first bit of every pair whose bits differ. This is von Neumann's extractor. */
  function Unequal(x: seq<Bit>): (r: seq<Bit>)
  {
    if |x| < 2 then [] else (if x[0] != x[1] then [x[0]] else []) + Unequal(x[2..])
  }

  /** For every pair, whether its bits differ. */
  function PairXors(x: seq<Bit>): (r: seq<Bit>)
    ensures |r| == |x| / 2
  {
    if |x| < 2 then [] else [if x[0] != x[1] then 1 else 0] + PairXors(x[2..])
  }

  /** The common bit of every pair whose bits agree. */
  function EqualBits(x: seq<Bit>): (r: seq<Bit>)
    ensures |r| <= |x| / 2
  {
    if |x| < 2 then [] else (if x[0] == x[1] then [x[0]] else []) + EqualBits(x[2..])
  }

  /** The bit, if any, that is left without a partner. */
  function Leftover(x: seq<Bit>): (r: seq<Bit>)
    ensures |r| == |x| % 2
  {
    if |x| < 2 then x else Leftover(x[2..])
  }

  function Extract(x: seq<Bit>): (r: seq<Bit>)
    decreases |x|
  {
    if |x| < 2 then [] else Unequal(x) + Extract(PairXors(x)) + Extract(EqualBits(x))
  }

  lemma {:induction false} ExtractByLevels(x: seq<Bit>)
    ensures Extract(x) == Unequal(x) + Extract(PairXors(x)) + Extract(EqualBits(x))
  {
  }

  lemma {:induction false} ShortYieldsNothing(x: seq<Bit>)
    requires |x| < 2
    ensures Extract(x) == []
  {
  }
  /** The levels in their order, on eight bits that reach all of them. */
  lemma {:induction false} EightBits()
    ensures Extract([1, 1, 0, 0, 1, 1, 1, 0]) == [1] + [0, 0] + [1]
  {
    hide Extract, Unequal, PairXors, EqualBits;
    PartsOfEight();
    PartsOfFour();
    PartsOfFew();
    ExtractByLevels([1, 1, 0, 0, 1, 1, 1, 0]);
    ExtractByLevels([0, 0, 0, 1]);
    ExtractByLevels([1, 0, 1]);
    ExtractByLevels([0, 1]);
    ShortYieldsNothing([]);
    ShortYieldsNothing([0]);
    ShortYieldsNothing([1]);
  }

  lemma {:induction false} PartsOfEight()
    ensures var x := [1, 1, 0, 0, 1, 1, 1, 0];
            Unequal(x) == [1] && PairXors(x) == [0, 0, 0, 1] && EqualBits(x) == [1, 0, 1]
  {
    var x := [1, 1, 0, 0, 1, 1, 1, 0];
    assert x[2..] == [0, 0, 1, 1, 1, 0] && x[2..][2..] == [1, 1, 1, 0] && x[2..][2..][2..] == [1, 0];
  }

  lemma {:induction false} PartsOfFour()
    ensures var y := [0, 0, 0, 1]; Unequal(y) == [0] && PairXors(y) == [0, 1] && EqualBits(y) == [0]
  {
    var y := [0, 0, 0, 1];
    assert y[2..] == [0, 1];
  }

  lemma {:induction false} PartsOfFew()
    ensures Unequal([1, 0, 1]) == [1] && PairXors([1, 0, 1]) == [1] && EqualBits([1, 0, 1]) == []
    ensures Unequal([0, 1]) == [0] && PairXors([0, 1]) == [1] && EqualBits([0, 1]) == []
  {
    assert [1, 0, 1][2..] == [1];
  }


  lemma {:induction false} OnesCons(b: Bit, x: seq<Bit>)
    ensures Ones([b] + x) == b + Ones(x)
  {
    assert ([b] + x)[1..] == x;
  }

  lemma {:induction false} OnesAppend(x: seq<Bit>, y: seq<Bit>)
    ensures Ones(x + y) == Ones(x) + Ones(y)
  {
    if x == [] {
      assert x + y == y;
    } else {
      OnesAppend(x[1..], y);
      assert (x + y)[1..] == x[1..] + y;
    }
  }

  lemma {:induction false} PairCounts(x: seq<Bit>)
    ensures |Unequal(x)| == Ones(PairXors(x))
    ensures |Unequal(x)| + |EqualBits(x)| == |x| / 2
    ensures Ones(x) == |Unequal(x)| + 2 * Ones(EqualBits(x)) + Ones(Leftover(x))
  {
    if |x| < 2 {
      NoPairs(x);
    } else {
      hide Ones, Unequal, PairXors, EqualBits, Leftover;
      var y := x[2..];
      PairCounts(y);
      PartsOfPair(x);
      OnesCons(x[0], [x[1]] + y);
      OnesCons(x[1], y);
      assert x == [x[0]] + ([x[1]] + y);
      OnesCons(if x[0] != x[1] then 1 else 0, PairXors(y));
      OnesCons(x[0], EqualBits(y));
    }
  }

  lemma {:induction false} NoPairs(x: seq<Bit>)
    requires |x| < 2
    ensures Unequal(x) == [] && PairXors(x) == [] && EqualBits(x) == [] && Leftover(x) == x && Ones([]) == 0
  {
  }

  /** An extracted string is always shorter than its input. */
  lemma {:induction false} OutputIsShorter(x: seq<Bit>)
    ensures x == [] ==> Extract(x) == []
    ensures x != [] ==> |Extract(x)| <= |x| - 1
    decreases |x|
  {
    if |x| >= 2 {
      PairCounts(x);
      OutputIsShorter(PairXors(x));
      OutputIsShorter(EqualBits(x));
    }
  }

  // ---------------------------------------------------------------------------
  // Rebuilding an input from its parts

  function Rebuild(u: seq<Bit>, a: seq<Bit>, e: seq<Bit>, tail: seq<Bit>): (x: seq<Bit>)
    requires |u| == Ones(a) && |e| == |a| - Ones(a) && |tail| < 2
    decreases |a|
  {
    if a == [] then tail
    else if a[0] == 1 then [u[0], 1 - u[0]] + Rebuild(u[1..], a[1..], e, tail)
    else [e[0], e[0]] + Rebuild(u, a[1..], e[1..], tail)
  }

  lemma {:induction false} RebuildParts(u: seq<Bit>, a: seq<Bit>, e: seq<Bit>, tail: seq<Bit>)
    requires |u| == Ones(a) && |e| == |a| - Ones(a) && |tail| < 2
    ensures var x := Rebuild(u, a, e, tail);
            Unequal(x) == u && PairXors(x) == a && EqualBits(x) == e && Leftover(x) == tail
    ensures |Rebuild(u, a, e, tail)| == 2 * |a| + |tail|
    decreases |a|
  {
    var x := Rebuild(u, a, e, tail);
    if a != [] {
      assert a == [a[0]] + a[1..];
      if a[0] == 1 {
        RebuildParts(u[1..], a[1..], e, tail);
        assert x[2..] == Rebuild(u[1..], a[1..], e, tail);
        assert u == [u[0]] + u[1..];
      } else {
        RebuildParts(u, a[1..], e[1..], tail);
        assert x[2..] == Rebuild(u, a[1..], e[1..], tail);
        assert e == [e[0]] + e[1..];
      }
    }
  }

  lemma {:induction false} RebuildOwnParts(x: seq<Bit>)
    ensures |Unequal(x)| == Ones(PairXors(x)) && |EqualBits(x)| == |PairXors(x)| - Ones(PairXors(x))
    ensures Rebuild(Unequal(x), PairXors(x), EqualBits(x), Leftover(x)) == x
  {
    PairCounts(x);
    if |x| >= 2 {
      RebuildOwnParts(x[2..]);
      RebuildOwnPair(x);
    }
  }

  lemma {:induction false} RebuildOwnPair(x: seq<Bit>)
    requires |x| >= 2
    requires |Unequal(x)| == Ones(PairXors(x)) && |EqualBits(x)| == |PairXors(x)| - Ones(PairXors(x))
    requires var y := x[2..];
             && |Unequal(y)| == Ones(PairXors(y)) && |EqualBits(y)| == |PairXors(y)| - Ones(PairXors(y))
             && Rebuild(Unequal(y), PairXors(y), EqualBits(y), Leftover(y)) == y
    ensures Rebuild(Unequal(x), PairXors(x), EqualBits(x), Leftover(x)) == x
  {
    hide Unequal, PairXors, EqualBits, Leftover, Rebuild, Ones;
    var y := x[2..];
    PartsOfPair(x);
    if x[0] != x[1] {
      RebuildUnequal(x[0], Unequal(y), PairXors(y), EqualBits(y), Leftover(y));
      assert x == [x[0], 1 - x[0]] + y;
    } else {
      RebuildEqual(x[0], Unequal(y), PairXors(y), EqualBits(y), Leftover(y));
      assert x == [x[0], x[0]] + y;
    }
  }

  lemma {:induction false} PartsOfPair(x: seq<Bit>)
    requires |x| >= 2
    ensures Leftover(x) == Leftover(x[2..])
    ensures x[0] != x[1] ==> Unequal(x) == [x[0]] + Unequal(x[2..]) && PairXors(x) == [1] + PairXors(x[2..])
                             && EqualBits(x) == EqualBits(x[2..])
    ensures x[0] == x[1] ==> Unequal(x) == Unequal(x[2..]) && PairXors(x) == [0] + PairXors(x[2..])
                             && EqualBits(x) == [x[0]] + EqualBits(x[2..])
  {
  }

  lemma {:induction false} RebuildUnequal(b: Bit, u: seq<Bit>, a: seq<Bit>, e: seq<Bit>, tail: seq<Bit>)
    requires |u| == Ones(a) && |e| == |a| - Ones(a) && |tail| < 2
    ensures Ones([1] + a) == Ones(a) + 1
    ensures Rebuild([b] + u, [1] + a, e, tail) == [b, 1 - b] + Rebuild(u, a, e, tail)
  {
    OnesCons(1, a);
    assert ([1] + a)[1..] == a && ([b] + u)[1..] == u;
  }

  lemma {:induction false} RebuildEqual(b: Bit, u: seq<Bit>, a: seq<Bit>, e: seq<Bit>, tail: seq<Bit>)
    requires |u| == Ones(a) && |e| == |a| - Ones(a) && |tail| < 2
    ensures Ones([0] + a) == Ones(a)
    ensures Rebuild(u, [0] + a, [b] + e, tail) == [b, b] + Rebuild(u, a, e, tail)
  {
    OnesCons(0, a);
    assert ([0] + a)[1..] == a && ([b] + e)[1..] == e;
  }

  // ---------------------------------------------------------------------------
  // Steering

  /**
   The input of the same length and the same number of ones as x whose output is w: the part of w
   that x took from its own unequal pairs replaces those pairs, and the two levels below are
   steered towards the rest.
   */
  function Steer(x: seq<Bit>, w: seq<Bit>): (r: seq<Bit>)
    requires |w| == |Extract(x)|
    ensures |r| == |x| && Ones(r) == Ones(x) && Extract(r) == w
    decreases |x|
  {
    if |x| < 2 then x
    else
      PairCounts(x);
      var (wu, wa, we) := SplitTarget(x, w);
      var a := Steer(PairXors(x), wa);
      var e := Steer(EqualBits(x), we);
      RebuildParts(wu, a, e, Leftover(x));
      var r := Rebuild(wu, a, e, Leftover(x));
      PairCounts(r);
      r
  }

  /** The three parts of a target: for the unequal pairs, the pair xors and the equal bits. */
  function SplitTarget(x: seq<Bit>, w: seq<Bit>): (p: (seq<Bit>, seq<Bit>, seq<Bit>))
    requires |x| >= 2 && |w| == |Extract(x)|
    ensures |p.0| == |Unequal(x)| && |p.1| == |Extract(PairXors(x))| && |p.2| == |Extract(EqualBits(x))|
    ensures p.0 + p.1 + p.2 == w
  {
    Cut(w, |Unequal(x)|, |Extract(PairXors(x))|)
  }

  function Cut(w: seq<Bit>, i: nat, j: nat): (p: (seq<Bit>, seq<Bit>, seq<Bit>))
    requires i + j <= |w|
    ensures |p.0| == i && |p.1| == j && p.0 + p.1 + p.2 == w
  {
    (w[..i], w[i..i + j], w[i + j..])
  }

  /** Steering twice is steering once, to the second target. */
  lemma {:induction false} SteerTwice(x: seq<Bit>, w: seq<Bit>, v: seq<Bit>)
    requires |w| == |v| == |Extract(x)|
    ensures Steer(Steer(x, w), v) == Steer(x, v)
    decreases |x|
  {
    if |x| >= 2 {
      var (wu, wa, we) := SplitTarget(x, w);
      var (vu, va, ve) := SplitTarget(x, v);
      var a, e := Steer(PairXors(x), wa), Steer(EqualBits(x), we);
      PairCounts(x);
      RebuildParts(wu, a, e, Leftover(x));
      SteerTwice(PairXors(x), wa, va);
      SteerTwice(EqualBits(x), we, ve);
    }
  }

  /** Steering an input to its own output changes nothing. */
  lemma {:induction false} SteerNowhere(x: seq<Bit>)
    ensures Steer(x, Extract(x)) == x
    decreases |x|
  {
    if |x| >= 2 {
      SteerNowhere(PairXors(x));
      SteerNowhere(EqualBits(x));
      RebuildOwnParts(x);
      var (u, a, e) := SplitTarget(x, Extract(x));
      assert u == Unequal(x) && a == Extract(PairXors(x)) && e == Extract(EqualBits(x));
    }
  }

  /**
   Exchange: any output of the right length is produced by an input of the same length and the
   same number of ones, and steering that input back to the original output recovers the original.
   */
  lemma {:induction false} Exchange(x: seq<Bit>, w: seq<Bit>)
    requires |w| == |Extract(x)|
    ensures var y := Steer(x, w);
            |y| == |x| && Ones(y) == Ones(x) && Extract(y) == w && Steer(y, Extract(x)) == x
  {
    SteerTwice(x, w, Extract(x));
    SteerNowhere(x);
  }
}
