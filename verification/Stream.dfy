/**
 The whitening pipeline as functions on whole streams: the bits collected from the devices are
 debiased block by block, and the debiased bits are packed, folded and emitted group by group.
 */
module Stream {
  import opened Extractor
  import opened Packing

  const ASCII_ZERO := 48 // how the devices and the utilities spell a bit
  const ASCII_ONE := 49
  const BLOCK_BITS := 512
  const HALF_BYTES := 512
  const GROUP_BITS := 8192

  /** The debiased bits of all complete blocks of a stream. */
  function Debias(t: seq<Bit>): seq<Bit>
  {
    if |t| < BLOCK_BITS then [] else Extract(t[..BLOCK_BITS]) + Debias(t[BLOCK_BITS..])
  }

  /** A group of 1024 packed bytes, its second half folded onto its first. */
  function MixGroup(g: seq<Bit>): (r: seq<Byte>)
    requires |g| == GROUP_BITS
    ensures |r| == HALF_BYTES
  {
    seq(HALF_BYTES, l requires 0 <= l < HALF_BYTES => PackedAt(g, l) ^ PackedAt(g, l + HALF_BYTES))
  }

  /** Byte l of the packing of w, with zeros where w has ended. */
  function PackedAt(w: seq<Bit>, l: nat): Byte
  {
    if 8 * l >= |w| then 0
    else if 8 * l + 8 >= |w| then PackLsb(w[8 * l..])
    else PackLsb(w[8 * l..8 * l + 8])
  }

  /** The bytes written for a stream of debiased bits: one half group for every complete group. */
  function Emitted(w: seq<Bit>): (r: seq<Byte>)
    ensures |r| == HALF_BYTES * (|w| / GROUP_BITS)
  {
    if |w| < GROUP_BITS then [] else MixGroup(w[..GROUP_BITS]) + Emitted(w[GROUP_BITS..])
  }

  lemma {:induction false} DebiasAppend(a: seq<Bit>, b: seq<Bit>)
    requires |a| % BLOCK_BITS == 0
    ensures Debias(a + b) == Debias(a) + Debias(b)
  {
    hide Extract;
    if a == [] {
      assert a + b == b;
    } else {
      var head, rest := a[..BLOCK_BITS], a[BLOCK_BITS..];
      DebiasAppend(rest, b);
      assert (a + b)[..BLOCK_BITS] == head && (a + b)[BLOCK_BITS..] == rest + b;
      assert Extract(head) + (Debias(rest) + Debias(b)) == (Extract(head) + Debias(rest)) + Debias(b);
    }
  }

  lemma {:induction false} EmittedAppend(a: seq<Bit>, b: seq<Bit>)
    requires |a| % GROUP_BITS == 0
    ensures Emitted(a + b) == Emitted(a) + Emitted(b)
  {
    if a == [] {
      assert a + b == b;
    } else {
      EmittedAppend(a[GROUP_BITS..], b);
      assert (a + b)[..GROUP_BITS] == a[..GROUP_BITS];
      assert (a + b)[GROUP_BITS..] == a[GROUP_BITS..] + b;
    }
  }

  /** Adding one bit to a packed stream changes only the byte that is being filled. */
  lemma {:induction false} PackedAtAppend(w: seq<Bit>, b: Bit, l: nat)
    ensures PackedAt(w + [b], l) ==
            if l == |w| / 8 then SetBit(PackedAt(w, l), |w| % 8, b) else PackedAt(w, l)
  {
    var v := w + [b];
    if l == |w| / 8 {
      assert 8 * l + |w| % 8 == |w|;
      assert v[8 * l..] == w[8 * l..] + [b];
      assert v[8 * l..][..|w| % 8] == w[8 * l..];
      if |w| % 8 == 7 {
        assert v[8 * l..8 * l + 8] == v[8 * l..];
      }
    } else if l < |w| / 8 {
      assert v[8 * l..8 * l + 8] == w[8 * l..8 * l + 8];
      assert 8 * l + 8 == |w| ==> w[8 * l..8 * l + 8] == w[8 * l..];
    }
  }

  // ---------------------------------------------------------------------------
  // Exchange, end to end

  /** The stream of the same shape whose debiased bits are w: every complete block is steered. */
  function SteerStream(t: seq<Bit>, w: seq<Bit>): (r: seq<Bit>)
    requires |w| == |Debias(t)|
  {
    if |t| < BLOCK_BITS then t
    else
      var n := |Extract(t[..BLOCK_BITS])|;
      Steer(t[..BLOCK_BITS], w[..n]) + SteerStream(t[BLOCK_BITS..], w[n..])
  }

  /** The two streams have equally many ones in each block and the same unfinished block. */
  predicate SameBlockOnes(r: seq<Bit>, t: seq<Bit>)
  {
    |r| == |t| &&
    if |t| < BLOCK_BITS then r == t
    else Ones(r[..BLOCK_BITS]) == Ones(t[..BLOCK_BITS]) && SameBlockOnes(r[BLOCK_BITS..], t[BLOCK_BITS..])
  }

  /** Steering a stream reaches its target, keeps the shape, and can be undone. */
  lemma {:induction false} SteerStreamWorks(t: seq<Bit>, w: seq<Bit>)
    requires |w| == |Debias(t)|
    ensures var r := SteerStream(t, w);
            Debias(r) == w && SameBlockOnes(r, t) && SteerStream(r, Debias(t)) == t
  {
    hide Extract, Steer;
    if |t| >= BLOCK_BITS {
      var n := |Extract(t[..BLOCK_BITS])|;
      var head, tail := Steer(t[..BLOCK_BITS], w[..n]), SteerStream(t[BLOCK_BITS..], w[n..]);
      var r := SteerStream(t, w);
      assert r[..BLOCK_BITS] == head && r[BLOCK_BITS..] == tail;
      Exchange(t[..BLOCK_BITS], w[..n]);
      SteerStreamWorks(t[BLOCK_BITS..], w[n..]);
      assert Debias(t)[..n] == Extract(t[..BLOCK_BITS]) && Debias(t)[n..] == Debias(t[BLOCK_BITS..]);
    }
  }

  /** The group whose folding is v: the second half is kept, the first half is what v requires. */
  function RetargetGroup(g: seq<Bit>, v: seq<Byte>): (r: seq<Bit>)
    requires |g| == GROUP_BITS && |v| == HALF_BYTES
    ensures |r| == GROUP_BITS
  {
    seq(GROUP_BITS, i requires 0 <= i < GROUP_BITS =>
      if i < 8 * HALF_BYTES then UnpackLsb(v[i / 8] ^ PackedAt(g, HALF_BYTES + i / 8))[i % 8] else g[i])
  }

  lemma {:induction false} RetargetedBytes(g: seq<Bit>, v: seq<Byte>, l: nat)
    requires |g| == GROUP_BITS && |v| == HALF_BYTES && l < HALF_BYTES
    ensures PackedAt(RetargetGroup(g, v), l) == v[l] ^ PackedAt(g, l + HALF_BYTES)
    ensures PackedAt(RetargetGroup(g, v), l + HALF_BYTES) == PackedAt(g, l + HALF_BYTES)
  {
    hide UnpackLsb, PackLsb;
    var r, m := RetargetGroup(g, v), l + HALF_BYTES;
    var byte := v[l] ^ PackedAt(g, m);
    assert r[8 * l..8 * l + 8] == UnpackLsb(byte) by { RetargetedBits(g, v, l); }
    PackOfUnpack(byte);
    assert r[8 * m..8 * m + 8] == g[8 * m..8 * m + 8];
    assert 8 * m + 8 == GROUP_BITS ==> r[8 * m..] == g[8 * m..];
  }

  lemma {:induction false} RetargetedBits(g: seq<Bit>, v: seq<Byte>, l: nat)
    requires |g| == GROUP_BITS && |v| == HALF_BYTES && l < HALF_BYTES
    ensures RetargetGroup(g, v)[8 * l..8 * l + 8] == UnpackLsb(v[l] ^ PackedAt(g, l + HALF_BYTES))
  {
    hide UnpackLsb, PackedAt;
    var r, byte := RetargetGroup(g, v), v[l] ^ PackedAt(g, HALF_BYTES + l);
    forall k | 0 <= k < 8 ensures r[8 * l + k] == UnpackLsb(byte)[k] {
      assert (8 * l + k) / 8 == l && (8 * l + k) % 8 == k;
    }
  }

  lemma {:induction false} RetargetGroupMixes(g: seq<Bit>, v: seq<Byte>)
    requires |g| == GROUP_BITS && |v| == HALF_BYTES
    ensures MixGroup(RetargetGroup(g, v)) == v
  {
    hide UnpackLsb, PackLsb, RetargetGroup, PackedAt;
    forall l | 0 <= l < HALF_BYTES ensures MixGroup(RetargetGroup(g, v))[l] == v[l] {
      RetargetedBytes(g, v, l);
      XorTwice(v[l], PackedAt(g, l + HALF_BYTES));
    }
  }

  lemma {:induction false} XorTwice(a: Byte, b: Byte)
    ensures (a ^ b) ^ b == a
  {
  }

  lemma {:induction false} RetargetGroupBack(g: seq<Bit>, v: seq<Byte>)
    requires |g| == GROUP_BITS && |v| == HALF_BYTES
    ensures RetargetGroup(RetargetGroup(g, v), MixGroup(g)) == g
  {
    hide UnpackLsb, PackLsb;
    var r := RetargetGroup(g, v);
    forall i | 0 <= i < GROUP_BITS ensures RetargetGroup(r, MixGroup(g))[i] == g[i] {
      if i < 8 * HALF_BYTES {
        var l := i / 8;
        RetargetedBytes(g, v, l);
        XorTwice(PackedAt(g, l), PackedAt(g, l + HALF_BYTES));
        UnpackOfPack(g[8 * l..8 * l + 8]);
        assert g[8 * l..8 * l + 8][i % 8] == g[i];
      }
    }
  }

  /** The debiased stream of the same length for which v is emitted. */
  function Retarget(w: seq<Bit>, v: seq<Byte>): (r: seq<Bit>)
    requires |v| == |Emitted(w)|
    ensures |r| == |w| && Emitted(r) == v
  {
    if |w| < GROUP_BITS then w
    else
      RetargetGroupMixes(w[..GROUP_BITS], v[..HALF_BYTES]);
      var head := RetargetGroup(w[..GROUP_BITS], v[..HALF_BYTES]);
      var tail := Retarget(w[GROUP_BITS..], v[HALF_BYTES..]);
      assert (head + tail)[..GROUP_BITS] == head && (head + tail)[GROUP_BITS..] == tail;
      head + tail
  }

  lemma {:induction false} RetargetBack(w: seq<Bit>, v: seq<Byte>)
    requires |v| == |Emitted(w)|
    ensures Retarget(Retarget(w, v), Emitted(w)) == w
  {
    if |w| >= GROUP_BITS {
      hide RetargetGroup, MixGroup;
      var head := RetargetGroup(w[..GROUP_BITS], v[..HALF_BYTES]);
      var tail := Retarget(w[GROUP_BITS..], v[HALF_BYTES..]);
      var r := Retarget(w, v);
      assert r[..GROUP_BITS] == head && r[GROUP_BITS..] == tail;
      RetargetGroupBack(w[..GROUP_BITS], v[..HALF_BYTES]);
      RetargetBack(w[GROUP_BITS..], v[HALF_BYTES..]);
      assert Emitted(w)[..HALF_BYTES] == MixGroup(w[..GROUP_BITS]);
      assert Emitted(w)[HALF_BYTES..] == Emitted(w[GROUP_BITS..]);
    }
  }

  /** The collected stream of the same shape for which v is emitted. */
  function SteerOutput(t: seq<Bit>, v: seq<Byte>): (r: seq<Bit>)
    requires |v| == |Emitted(Debias(t))|
  {
    SteerStream(t, Retarget(Debias(t), v))
  }

  /**
   Whatever the pipeline emitted, it could as well have emitted any other bytes of that length: they
   come from a collected stream with the same number of ones in every block, and steering that stream
   back to the emitted bytes recovers the collected one.
   */
  lemma {:induction false} OutputExchange(t: seq<Bit>, v: seq<Byte>)
    requires |v| == |Emitted(Debias(t))|
    ensures var r := SteerOutput(t, v);
            && SameBlockOnes(r, t)
            && Emitted(Debias(r)) == v
            && SteerOutput(r, Emitted(Debias(t))) == t
  {
    hide *;
    var w := Debias(t);
    SteerOutputDef(t, v);
    SteerStreamWorks(t, Retarget(w, v));
    SteerOutputDef(SteerOutput(t, v), Emitted(w));
    RetargetBack(w, v);
  }

  lemma {:induction false} SteerOutputDef(t: seq<Bit>, v: seq<Byte>)
    requires |v| == |Emitted(Debias(t))|
    ensures SteerOutput(t, v) == SteerStream(t, Retarget(Debias(t), v))
  {
  }
}
