/**
 The extractor as the daemon and the utility run it: on fixed arrays of cells that hold a bit or
 the end marker -1.
 */
module AmlsArray {
  import opened Extractor

  /** A signed 8-bit cell. */
  type Cell = c: int | -128 <= c < 128

  const ARRAY_LEN := 512

  predicate IsBit(c: Cell)
  {
    c == 0 || c == 1
  }

  /** The cells up to the first one that is not a bit. */
  function BitPrefix(cells: seq<Cell>): (r: seq<Bit>)
    ensures r <= cells
    ensures |r| < |cells| ==> !IsBit(cells[|r|])
  {
    if cells == [] || !IsBit(cells[0]) then [] else [cells[0]] + BitPrefix(cells[1..])
  }

  /** The array starts with these bits. */
  ghost predicate StartsWith(a: array<Cell>, bits: seq<Bit>)
    reads a
  {
    |bits| <= a.Length && forall i :: 0 <= i < |bits| ==> a[i] == bits[i]
  }

  /** The array holds these bits, and the end marker everywhere after them. */
  ghost predicate Holds(a: array<Cell>, bits: seq<Bit>)
    reads a
  {
    StartsWith(a, bits) && forall i :: |bits| <= i < a.Length ==> a[i] == -1
  }

  /** After the pairs of x[..j], the first bits, xors and equal bits found so far are u, a and e. */
  ghost predicate SplitUpTo(x: seq<Bit>, j: nat, u: seq<Bit>, a: seq<Bit>, e: seq<Bit>)
  {
    && j <= |x|
    && |u| + |e| == |a| && 2 * |a| == j
    && u + Unequal(x[j..]) == Unequal(x)
    && a + PairXors(x[j..]) == PairXors(x)
    && e + EqualBits(x[j..]) == EqualBits(x)
  }

  lemma {:induction false} SplitStart(x: seq<Bit>)
    ensures SplitUpTo(x, 0, [], [], [])
  {
    assert x[0..] == x;
  }

  lemma {:induction false} SplitStep(x: seq<Bit>, j: nat, u: seq<Bit>, a: seq<Bit>, e: seq<Bit>)
    requires SplitUpTo(x, j, u, a, e) && j + 2 <= |x|
    ensures x[j] == x[j + 1] ==> SplitUpTo(x, j + 2, u, a + [0], e + [x[j]])
    ensures x[j] != x[j + 1] ==> SplitUpTo(x, j + 2, u + [x[j]], a + [1], e)
  {
    var y, z := x[j..], x[j + 2..];
    assert y[2..] == z;
    if x[j] == x[j + 1] {
      assert a + ([0] + PairXors(z)) == (a + [0]) + PairXors(z);
      assert e + ([x[j]] + EqualBits(z)) == (e + [x[j]]) + EqualBits(z);
      assert Unequal(y) == Unequal(z);
    } else {
      assert a + ([1] + PairXors(z)) == (a + [1]) + PairXors(z);
      assert u + ([x[j]] + Unequal(z)) == (u + [x[j]]) + Unequal(z);
      assert EqualBits(y) == EqualBits(z);
    }
  }

  lemma {:induction false} SplitDone(x: seq<Bit>, j: nat, u: seq<Bit>, a: seq<Bit>, e: seq<Bit>)
    requires SplitUpTo(x, j, u, a, e) && |x| - j < 2
    ensures u == Unequal(x) && a == PairXors(x) && e == EqualBits(x)
  {
  }

  /** Splits the leading bits of data into pairs, filling the three arrays from their start. */
  method SplitPairs(data: array<Cell>, dataLen: nat, result: array<Cell>, levelA: array<Cell>, level1: array<Cell>)
    returns (resultPos: nat, levelAPos: nat, level1Pos: nat)
    requires dataLen <= ARRAY_LEN && dataLen <= data.Length
    requires result.Length == levelA.Length == level1.Length == ARRAY_LEN
    requires data != result && data != levelA && data != level1
    requires result != levelA && result != level1 && levelA != level1
    requires Holds(result, [])
    modifies result, levelA, level1
    ensures var x := BitPrefix(data[..dataLen]);
            && Holds(result, Unequal(x)) && resultPos == |Unequal(x)|
            && StartsWith(levelA, PairXors(x)) && levelAPos == |PairXors(x)|
            && StartsWith(level1, EqualBits(x)) && level1Pos == |EqualBits(x)|
  {
    hide Unequal, PairXors, EqualBits, BitPrefix;
    ghost var x := BitPrefix(data[..dataLen]);
    SplitStart(x);
    ghost var j, u: seq<Bit>, a: seq<Bit>, e: seq<Bit> := 0, [], [], [];
    resultPos, levelAPos, level1Pos := 0, 0, 0;
    var bit0: Cell := -1;
    var i := 0;
    while i < dataLen
      invariant j <= i <= |x| && i <= j + 1
      invariant SplitUpTo(x, j, u, a, e)
      invariant bit0 == if i == j then -1 else x[j]
      invariant resultPos == |u| && levelAPos == |a| && level1Pos == |e|
      invariant Holds(result, u) && StartsWith(levelA, a) && StartsWith(level1, e)
    {
      if data[i] != 0 && data[i] != 1 {
        break;
      }
      if bit0 == -1 {
        bit0 := data[i];
      } else {
        SplitStep(x, j, u, a, e);
        if bit0 == data[i] {
          levelA[levelAPos] := 0;
          levelAPos := levelAPos + 1;
          level1[level1Pos] := bit0;
          level1Pos := level1Pos + 1;
          j, a, e := j + 2, a + [0], e + [x[j]];
        } else {
          levelA[levelAPos] := 1;
          levelAPos := levelAPos + 1;
          result[resultPos] := bit0;
          resultPos := resultPos + 1;
          j, u, a := j + 2, u + [x[j]], a + [1];
        }
        bit0 := -1;
      }
      i := i + 1;
    }
    SplitDone(x, j, u, a, e);
  }

  /** Copies the bits of one array behind those of another, up to the end marker. */
  method Append(result: array<Cell>, resultPos: nat, level: array<Cell>, ghost u: seq<Bit>, ghost v: seq<Bit>)
    returns (newPos: nat)
    requires result != level
    requires result.Length == level.Length == ARRAY_LEN && |u| + |v| < ARRAY_LEN
    requires Holds(result, u) && resultPos == |u| && Holds(level, v)
    modifies result
    ensures Holds(result, u + v) && newPos == |u + v|
  {
    newPos := resultPos;
    var i := 0;
    while i < ARRAY_LEN
      invariant 0 <= i <= |v|
      invariant newPos == |u| + i && Holds(result, u + v[..i])
    {
      if level[i] == -1 {
        break;
      }
      result[newPos] := level[i];
      newPos := newPos + 1;
      i := i + 1;
    }
    assert v[..i] == v;
  }

  method AppendLevels(result: array<Cell>, resultPos: nat, levelA: array<Cell>, level1: array<Cell>,
                      ghost u: seq<Bit>, ghost v: seq<Bit>, ghost w: seq<Bit>)
    requires result != levelA && result != level1
    requires result.Length == levelA.Length == level1.Length == ARRAY_LEN && |u + v + w| < ARRAY_LEN
    requires Holds(result, u) && resultPos == |u| && Holds(levelA, v) && Holds(level1, w)
    modifies result
    ensures Holds(result, u + v + w)
  {
    var pos := Append(result, resultPos, levelA, u, v);
    pos := Append(result, pos, level1, u + v, w);
  }

  lemma {:induction false} StartsWithBits(a: array<Cell>, n: nat, bits: seq<Bit>)
    requires StartsWith(a, bits) && n == |bits|
    ensures BitPrefix(a[..n]) == bits
  {
    assert a[..n] == bits;
  }

  /**
   Extracts from the first dataLen cells: the result is the extraction of the bits up to the first
   cell that is not a bit, and at least one end marker follows. The level arrays start with arbitrary
   contents, as the source never initialises them, so no unwritten level cell matters.
   */
  method Amls(data: array<Cell>, dataLen: nat) returns (result: array<Cell>)
    requires dataLen <= ARRAY_LEN && dataLen <= data.Length
    ensures fresh(result) && result.Length == ARRAY_LEN
    ensures Holds(result, Extract(BitPrefix(data[..dataLen])))
    ensures |Extract(BitPrefix(data[..dataLen]))| < ARRAY_LEN
    decreases dataLen
  {
    hide Extract, Unequal, PairXors, EqualBits, BitPrefix;
    ghost var x := BitPrefix(data[..dataLen]);
    OutputIsShorter(x);
    ExtractByLevels(x);
    result := new Cell[ARRAY_LEN](_ => -1);
    assert Holds(result, []);
    hide Holds, StartsWith;
    if dataLen < 2 {
      return;
    }
    var level1 := new Cell[ARRAY_LEN];
    var levelA := new Cell[ARRAY_LEN];
    var resultPos, levelAPos, level1Pos := SplitPairs(data, dataLen, result, levelA, level1);

    StartsWithBits(levelA, levelAPos, PairXors(x));
    StartsWithBits(level1, level1Pos, EqualBits(x));
    var levelAResult := Amls(levelA, levelAPos);
    var level1Result := Amls(level1, level1Pos);
    AppendLevels(result, resultPos, levelAResult, level1Result, Unequal(x), Extract(PairXors(x)),
      Extract(EqualBits(x)));
  }
}
