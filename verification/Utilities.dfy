/**
 The filter utilities, each a program from its standard input to its standard output, and how they
 agree with each other and with the daemon.
 */
module Utilities {
  import opened Extractor
  import opened AmlsArray
  import opened Packing
  import opened Stream
  import opened Arithmetic

  /** A character of an input or output text. */
  type Char8 = c: int | 0 <= c < 256

  // ---------------------------------------------------------------------------
  // xor512

  /** What the mixer writes: every byte of a second half as soon as it arrives. */
  function Mixed(s: seq<Byte>): (r: seq<Byte>)
  {
    if |s| <= 512 then []
    else var n := if |s| < 1024 then |s| else 1024; Xor(s[..512], s[512..n]) + Mixed(s[n..])
  }

  function Xor(a: seq<Byte>, b: seq<Byte>): (r: seq<Byte>)
    requires |b| <= |a|
    ensures |r| == |b|
  {
    seq(|b|, i requires 0 <= i < |b| => a[i] ^ b[i])
  }

  method Xor512(input: seq<Byte>) returns (out: seq<Byte>)
    ensures out == Mixed(input)
  {
    hide Mixed;
    var buf := new Byte[512](_ => 0);
    var pos := 0;
    out := [];
    assert input[0..] == input;
    while true
      invariant 0 <= pos <= |input|
      invariant out + Mixed(input[pos..]) == Mixed(input)
      decreases |input| - pos
    {
      MixedShape(input, pos);
      var eof := FillBuffer(input, pos, buf);
      if eof {
        return;
      }
      var mixed: seq<Byte>;
      mixed, eof := MixHalf(input, pos, buf);
      assert out + (mixed + Mixed(input[pos + 512 + |mixed|..])) == (out + mixed) + Mixed(input[pos + 512 + |mixed|..]);
      out := out + mixed;
      pos := pos + 512 + |mixed|;
      if eof {
        MixedShape(input, pos);
        return;
      }
    }
  }

  /** Reads up to 512 bytes into the buffer. */
  method FillBuffer(input: seq<Byte>, pos: nat, buf: array<Byte>) returns (eof: bool)
    requires pos <= |input| && buf.Length == 512
    modifies buf
    ensures eof == (|input| < pos + 512)
    ensures !eof ==> buf[..] == input[pos..pos + 512]
  {
    for i := 0 to 512
      invariant pos + i <= |input|
      invariant forall k :: 0 <= k < i ==> buf[k] == input[pos + k]
    {
      if pos + i == |input| {
        return true;
      }
      buf[i] := input[pos + i];
    }
    eof := false;
  }

  /** Reads up to 512 further bytes, each xored with its partner in the buffer. */
  method MixHalf(input: seq<Byte>, pos: nat, buf: array<Byte>) returns (mixed: seq<Byte>, eof: bool)
    requires pos + 512 <= |input| && buf.Length == 512 && buf[..] == input[pos..pos + 512]
    ensures eof == (|input| < pos + 1024)
    ensures var n := if eof then |input| else pos + 1024;
            mixed == Xor(input[pos..pos + 512], input[pos + 512..n])
  {
    mixed := [];
    for i := 0 to 512
      invariant pos + 512 + i <= |input|
      invariant mixed == Xor(input[pos..pos + 512], input[pos + 512..pos + 512 + i])
    {
      if pos + 512 + i == |input| {
        return mixed, true;
      }
      assert buf[i] == buf[..][i];
      mixed := mixed + [buf[i] ^ input[pos + 512 + i]];
    }
    eof := false;
  }

  /** The mixer's output from a position on, by how much input is left there. */
  lemma {:induction false} MixedShape(input: seq<Byte>, pos: nat)
    requires pos <= |input|
    ensures |input| < pos + 512 ==> Mixed(input[pos..]) == []
    ensures pos + 512 <= |input| ==>
      var n := if |input| < pos + 1024 then |input| else pos + 1024;
      Mixed(input[pos..]) == Xor(input[pos..pos + 512], input[pos + 512..n]) + Mixed(input[n..])
  {
    var s := input[pos..];
    if pos + 512 <= |input| {
      var n := if |input| < pos + 1024 then |input| else pos + 1024;
      assert s[..512] == input[pos..pos + 512];
      assert s[512..n - pos] == input[pos + 512..n] && s[n - pos..] == input[n..];
    }
  }

  /** The whole bytes of the daemon's packing of a stream of debiased bits. */
  function PackedBytes(w: seq<Bit>): (r: seq<Byte>)
    ensures |r| == |w| / 8
  {
    seq(|w| / 8, l requires 0 <= l < |w| / 8 => PackedAt(w, l))
  }

  /**
   The daemon writes what the mixer writes on the packed bytes of the debiased bits; the mixer is ahead
   only by the bytes of a second half that is still filling up.
   */
  lemma {:induction false} MixerAgrees(w: seq<Bit>)
    ensures Emitted(w) <= Mixed(PackedBytes(w))
    ensures var n := |PackedBytes(w)| % 1024;
            |Mixed(PackedBytes(w))| - |Emitted(w)| == if n <= 512 then 0 else n - 512
  {
    hide Mixed, PackedBytes, MixGroup, Xor, Emitted;
    EmittedSplit(w);
    var bytes := PackedBytes(w);
    MixedShape(bytes, 0);
    assert bytes[0..] == bytes;
    if |w| < GROUP_BITS {
      MixedShape(bytes, |bytes|);
    } else {
      var rest := w[GROUP_BITS..];
      MixerAgrees(rest);
      MixerGroup(w);
      assert Mixed(bytes) == MixGroup(w[..GROUP_BITS]) + Mixed(PackedBytes(rest)) by {
        assert bytes[0..512] == bytes[..512];
      }
      assert |bytes| == |PackedBytes(rest)| + 1024;
      DivModUnique(|bytes|, 1024, |PackedBytes(rest)| / 1024 + 1, |PackedBytes(rest)| % 1024);
    }
  }

  lemma {:induction false} EmittedSplit(w: seq<Bit>)
    ensures Emitted(w) == if |w| < GROUP_BITS then [] else MixGroup(w[..GROUP_BITS]) + Emitted(w[GROUP_BITS..])
  {
    hide MixGroup;
  }

  lemma {:induction false} MixerGroup(w: seq<Bit>)
    requires |w| >= GROUP_BITS
    ensures var bytes := PackedBytes(w);
            && bytes[1024..] == PackedBytes(w[GROUP_BITS..])
            && Xor(bytes[..512], bytes[512..1024]) == MixGroup(w[..GROUP_BITS])
  {
    var bytes, g, rest := PackedBytes(w), w[..GROUP_BITS], w[GROUP_BITS..];
    forall l: nat | l < 1024 ensures bytes[l] == PackedAt(g, l) {
      assert w[8 * l..8 * l + 8] == g[8 * l..8 * l + 8];
      assert 8 * l + 8 == |g| ==> g[8 * l..8 * l + 8] == g[8 * l..];
      assert 8 * l + 8 == |w| ==> w[8 * l..8 * l + 8] == w[8 * l..];
    }
    forall l: nat | l < |rest| / 8 ensures bytes[1024 + l] == PackedAt(rest, l) {
      assert w[8 * (1024 + l)..8 * (1024 + l) + 8] == rest[8 * l..8 * l + 8];
      assert 8 * l + 8 == |rest| ==> rest[8 * l..8 * l + 8] == rest[8 * l..] == w[8 * (1024 + l)..];
    }
  }

  // ---------------------------------------------------------------------------
  // ascii_to_bin

  /** The bits a text spells: every character other than '0' counts as a one. */
  function TextBits(text: seq<Char8>): (r: seq<Bit>)
    ensures |r| == |text|
  {
    seq(|text|, i requires 0 <= i < |text| => if text[i] == ASCII_ZERO then 0 else 1)
  }

  /** The whole bytes of a bit stream, most significant bit first. */
  function BytesMsb(v: seq<Bit>): (r: seq<Byte>)
    ensures |r| == |v| / 8
  {
    seq(|v| / 8, l requires 0 <= l < |v| / 8 => PackMsb(v[8 * l..8 * l + 8]))
  }

  /** Reads eight characters as a byte; eof if the text ends first. */
  method ReadUint8(text: seq<Char8>, pos: nat) returns (value: Byte, eof: bool)
    requires pos <= |text|
    ensures eof == (|text| < pos + 8)
    ensures !eof ==> value == PackMsb(TextBits(text[pos..pos + 8]))
  {
    hide PackMsb;
    value := 0;
    for i := 0 to 8
      invariant pos + i <= |text|
      invariant value == ShiftIn(TextBits(text[pos..pos + i]))
    {
      if pos + i == |text| {
        return value, true;
      }
      var c: Byte := if text[pos + i] == ASCII_ZERO then 0 else 1;
      value := (value << 1) | c;
      TextBitsNext(text[pos..pos + i], text[pos + i]);
      assert text[pos..pos + i + 1] == text[pos..pos + i] + [text[pos + i]];
    }
    ShiftInIsMsb(TextBits(text[pos..pos + 8]));
    eof := false;
  }

  lemma {:induction false} TextBitsNext(text: seq<Char8>, c: Char8)
    ensures ShiftIn(TextBits(text + [c])) == (ShiftIn(TextBits(text)) << 1) | (if c == ASCII_ZERO then 0 else 1)
  {
    assert TextBits(text + [c])[..|text|] == TextBits(text);
  }

  /** Bits shifted into a byte from the right. */
  function ShiftIn(bits: seq<Bit>): Byte
  {
    if bits == [] then 0
    else var n := |bits| - 1; (ShiftIn(bits[..n]) << 1) | (if bits[n] == 1 then 1 else 0)
  }

  lemma {:induction false} ShiftInBits(bits: seq<Bit>, k: nat)
    requires |bits| <= 8 && k < 8
    ensures BitAt(ShiftIn(bits), k) == if k < |bits| then bits[|bits| - 1 - k] else 0
  {
    if bits != [] {
      var n := |bits| - 1;
      ShiftStep(ShiftIn(bits[..n]), if bits[n] == 1 then 1 else 0, k);
      if k > 0 {
        ShiftInBits(bits[..n], k - 1);
      }
    }
  }

  lemma {:induction false} ShiftStep(v: Byte, c: Byte, k: nat)
    requires c <= 1 && k < 8
    ensures BitAt((v << 1) | c, k) == if k == 0 then (if c == 1 then 1 else 0) else BitAt(v, k - 1)
  {
  }

  lemma {:induction false} ShiftInIsMsb(bits: seq<Bit>)
    requires |bits| == 8
    ensures ShiftIn(bits) == PackMsb(bits)
  {
    forall k: nat | k < 8 ensures BitAt(ShiftIn(bits), k) == BitAt(PackMsb(bits), k) {
      ShiftInBits(bits, k);
      PackMsbBits(bits, 7 - k);
    }
    SameBits(ShiftIn(bits), PackMsb(bits));
  }

  method AsciiToBin(text: seq<Char8>) returns (out: seq<Byte>)
    ensures out == BytesMsb(TextBits(text))
  {
    hide PackMsb, BytesMsb, TextBits;
    out := [];
    ghost var bits := TextBits(text);
    while true
      invariant 8 * |out| <= |text|
      invariant forall l :: 0 <= l < |out| ==> out[l] == BytesMsb(bits)[l]
      decreases |text| - 8 * |out|
    {
      var byte, eof := ReadUint8(text, 8 * |out|);
      if eof {
        break;
      }
      ByteOfText(text, |out|);
      out := out + [byte];
    }
  }

  lemma {:induction false} ByteOfText(text: seq<Char8>, l: nat)
    requires 8 * l + 8 <= |text|
    ensures BytesMsb(TextBits(text))[l] == PackMsb(TextBits(text[8 * l..8 * l + 8]))
  {
    hide PackMsb;
    assert TextBits(text)[8 * l..8 * l + 8] == TextBits(text[8 * l..8 * l + 8]);
  }

  // ---------------------------------------------------------------------------
  // vonneumann

  /** The bits of a byte, most significant first. */
  function ByteBits(b: Byte): (r: seq<Bit>)
    ensures |r| == 8
  {
    [BitAt(b, 7), BitAt(b, 6), BitAt(b, 5), BitAt(b, 4), BitAt(b, 3), BitAt(b, 2), BitAt(b, 1), BitAt(b, 0)]
  }

  function AllBits(s: seq<Byte>): (r: seq<Bit>)
    ensures |r| == 8 * |s|
  {
    if s == [] then [] else AllBits(s[..|s| - 1]) + ByteBits(s[|s| - 1])
  }

  /** The output so far, the byte being filled and its fill count are the packing of the bits v. */
  ghost predicate Packed(v: seq<Bit>, out: seq<Byte>, output: Byte, count: nat)
  {
    out == BytesMsb(v) && count == |v| % 8 && output == PackMsb(v[|v| - |v| % 8..])
  }

  method VonNeumann(input: seq<Byte>) returns (out: seq<Byte>)
    ensures out == BytesMsb(Unequal(AllBits(input)))
  {
    hide BytesMsb, PackMsb, AllBits, Unequal, Packed, ByteBits;
    var output: Byte := 0;
    var count := 0;
    out := [];
    ghost var x: seq<Bit> := [];
    NothingPacked();
    for n := 0 to |input|
      invariant x == AllBits(input[..n])
      invariant Packed(Unequal(x), out, output, count)
    {
      ghost var byte := ByteBits(input[n]);
      assert x + byte[..2 * 0] == x;
      for i := 0 to 4
        invariant Packed(Unequal(x + byte[..2 * i]), out, output, count)
      {
        out, output, count := TakePair(input[n], i, out, output, count, x + byte[..2 * i]);
        assert byte[..2 * i + 2] == byte[..2 * i] + [byte[2 * i], byte[2 * i + 1]];
        assert x + byte[..2 * i + 2] == (x + byte[..2 * i]) + [byte[2 * i], byte[2 * i + 1]];
      }
      assert byte[..8] == byte;
      AllBitsNext(input, n);
      x := x + byte;
    }
    assert input[..|input|] == input;
    PackedOut(Unequal(x), out, output, count);
  }

  /** Pair i of a byte: keeps its first bit if the two differ, and writes the byte that this completes. */
  method TakePair(input: Byte, i: nat, out: seq<Byte>, output: Byte, count: nat, ghost x: seq<Bit>)
    returns (out': seq<Byte>, output': Byte, count': nat)
    requires i < 4 && |x| % 2 == 0 && Packed(Unequal(x), out, output, count)
    ensures Packed(Unequal(x + [ByteBits(input)[2 * i], ByteBits(input)[2 * i + 1]]), out', output', count')
  {
    hide BytesMsb, PackMsb, Unequal, Packed, ByteBits, SetBit, BitAt;
    PairBits(input, i);
    CountBelowEight(Unequal(x), out, output, count);
    out', output', count' := out, output, count;
    var c1, c2 := BitAt(input, 7 - 2 * i), BitAt(input, 6 - 2 * i);
    UnequalPair(x, c1, c2);
    if c1 != c2 {
      PackedNext(Unequal(x), out, output, count, c1);
    }
    SetZeroBit(output, count);
    if c1 == 0 && c2 == 1 {
      count' := count' + 1;
    }
    if c1 == 1 && c2 == 0 {
      output' := SetBit(output', 7 - count', 1);
      count' := count' + 1;
    }
    if count' >= 8 {
      count' := 0;
      out' := out' + [output'];
      output' := 0;
    }
  }

  lemma {:induction false} PairBits(b: Byte, i: nat)
    requires i < 4
    ensures ByteBits(b)[2 * i] == BitAt(b, 7 - 2 * i) && ByteBits(b)[2 * i + 1] == BitAt(b, 6 - 2 * i)
  {
    hide BitAt;
  }

  lemma {:induction false} CountBelowEight(v: seq<Bit>, out: seq<Byte>, output: Byte, count: nat)
    requires Packed(v, out, output, count)
    ensures count < 8
  {
  }

  lemma {:induction false} SetZeroBit(b: Byte, k: nat)
    requires k < 8
    ensures SetBit(b, 7 - k, 0) == b
  {
  }

  lemma {:induction false} NothingPacked()
    ensures Packed([], [], 0, 0) && Unequal([]) == [] && AllBits([]) == []
  {
  }

  lemma {:induction false} AllBitsNext(s: seq<Byte>, n: nat)
    requires n < |s|
    ensures AllBits(s[..n + 1]) == AllBits(s[..n]) + ByteBits(s[n])
  {
    assert s[..n + 1][..n] == s[..n];
  }

  lemma {:induction false} UnequalAppend(x: seq<Bit>, y: seq<Bit>)
    requires |x| % 2 == 0
    ensures Unequal(x + y) == Unequal(x) + Unequal(y)
  {
    if x == [] {
      assert x + y == y;
    } else {
      UnequalAppend(x[2..], y);
      assert (x + y)[2..] == x[2..] + y;
      var u: seq<Bit> := if x[0] != x[1] then [x[0]] else [];
      assert u + (Unequal(x[2..]) + Unequal(y)) == (u + Unequal(x[2..])) + Unequal(y);
    }
  }

  lemma {:induction false} UnequalPair(x: seq<Bit>, a: Bit, b: Bit)
    requires |x| % 2 == 0
    ensures Unequal(x + [a, b]) == if a != b then Unequal(x) + [a] else Unequal(x)
  {
    UnequalAppend(x, [a, b]);
    assert [a, b][2..] == [];
  }

  lemma {:induction false} PackedNext(v: seq<Bit>, out: seq<Byte>, output: Byte, count: nat, b: Bit)
    requires Packed(v, out, output, count)
    ensures count < 8
    ensures var filled := SetBit(output, 7 - count, b);
            if count == 7 then Packed(v + [b], out + [filled], 0, 0) else Packed(v + [b], out, filled, count + 1)
  {
    hide BytesMsb, SetBit;
    var n := |v| - count;
    var u := v + [b];
    assert u[n..] == v[n..] + [b];
    assert u[n..][..count] == v[n..];
    BytesMsbNext(v, b);
    if count == 7 {
      DivModUnique(|u|, 8, |v| / 8 + 1, 0);
      assert u[|u|..] == [];
    } else {
      DivModUnique(|u|, 8, |v| / 8, count + 1);
    }
  }

  lemma {:induction false} BytesMsbNext(v: seq<Bit>, b: Bit)
    ensures BytesMsb(v + [b]) ==
            if |v| % 8 == 7 then BytesMsb(v) + [PackMsb((v + [b])[|v| - 7..])] else BytesMsb(v)
  {
    hide PackMsb;
    var u := v + [b];
    forall l | 0 <= l < |v| / 8 ensures BytesMsb(u)[l] == BytesMsb(v)[l] {
      assert u[8 * l..8 * l + 8] == v[8 * l..8 * l + 8];
    }
    if |v| % 8 == 7 {
      assert 8 * (|v| / 8) == |v| - 7;
      assert u[|v| - 7..|v| + 1] == u[|v| - 7..];
    }
  }

  lemma {:induction false} PackedOut(v: seq<Bit>, out: seq<Byte>, output: Byte, count: nat)
    requires Packed(v, out, output, count)
    ensures out == BytesMsb(v)
  {
  }

  // ---------------------------------------------------------------------------
  // The two together

  /**
   ascii_to_bin piped into vonneumann debiases the text's own bits, up to the last whole byte: it writes
   the whole bytes of what von Neumann's extractor yields on them.
   */
  lemma {:induction false} PipelineDebiases(text: seq<Char8>)
    ensures var whole := TextBits(text)[..|text| / 8 * 8];
            BytesMsb(Unequal(AllBits(BytesMsb(TextBits(text))))) == BytesMsb(Unequal(whole))
  {
    AllBitsOfBytes(TextBits(text), |text| / 8);
    assert BytesMsb(TextBits(text))[..|text| / 8] == BytesMsb(TextBits(text));
  }

  /** The two tools in a pipe. */
  method Pipe(text: seq<Char8>) returns (out: seq<Byte>)
    ensures out == BytesMsb(Unequal(TextBits(text)[..|text| / 8 * 8]))
  {
    hide BytesMsb, AllBits, Unequal;
    var bytes := AsciiToBin(text);
    out := VonNeumann(bytes);
    PipelineDebiases(text);
  }

  lemma {:induction false} AllBitsOfBytes(v: seq<Bit>, n: nat)
    requires n <= |v| / 8
    ensures AllBits(BytesMsb(v)[..n]) == v[..8 * n]
  {
    hide PackMsb, ByteBits, AllBits, BytesMsb;
    if n == 0 {
      NoBits(BytesMsb(v));
    } else {
      AllBitsOfBytes(v, n - 1);
      AllBitsNext(BytesMsb(v), n - 1);
      BytesMsbAt(v, n - 1);
      ByteBitsOfPack(v[8 * (n - 1)..8 * (n - 1) + 8]);
      assert v[..8 * n] == v[..8 * (n - 1)] + v[8 * (n - 1)..8 * n];
    }
  }

  lemma {:induction false} NoBits(s: seq<Byte>)
    ensures AllBits(s[..0]) == []
  {
  }

  lemma {:induction false} BytesMsbAt(v: seq<Bit>, l: nat)
    requires l < |v| / 8
    ensures BytesMsb(v)[l] == PackMsb(v[8 * l..8 * l + 8])
  {
    hide PackMsb;
  }

  lemma {:induction false} ByteBitsOfPack(bits: seq<Bit>)
    requires |bits| == 8
    ensures ByteBits(PackMsb(bits)) == bits
  {
    forall k: nat | k < 8 ensures BitAt(PackMsb(bits), 7 - k) == bits[k] {
      PackMsbBits(bits, k);
    }
    ByteBitsAt(PackMsb(bits), bits);
  }

  lemma {:induction false} ByteBitsAt(b: Byte, bits: seq<Bit>)
    requires |bits| == 8 && forall k: nat :: k < 8 ==> BitAt(b, 7 - k) == bits[k]
    ensures ByteBits(b) == bits
  {
    hide BitAt;
    assert BitAt(b, 7 - 0) == bits[0] && BitAt(b, 7 - 1) == bits[1] && BitAt(b, 7 - 2) == bits[2] &&
           BitAt(b, 7 - 3) == bits[3];
    assert BitAt(b, 7 - 4) == bits[4] && BitAt(b, 7 - 5) == bits[5] && BitAt(b, 7 - 6) == bits[6] &&
           BitAt(b, 7 - 7) == bits[7];
  }

  /**
   On a stream cut into the extractor's blocks, von Neumann's bits are block by block a prefix of what
   the multi-level extractor yields: it finds at least as much, in the same order.
   */
  lemma {:induction false} VonNeumannIsPrefix(done: seq<Bit>, block: seq<Bit>)
    requires |done| % BLOCK_BITS == 0 && |block| == BLOCK_BITS
    ensures Unequal(done + block) == Unequal(done) + Unequal(block)
    ensures Debias(done + block) == Debias(done) + Extract(block)
    ensures Unequal(block) <= Extract(block)
  {
    hide Extract, Unequal, Debias;
    ExtractByLevels(block);
    DivModUnique(|done|, 2, 256 * (|done| / BLOCK_BITS), 0);
    UnequalAppend(done, block);
    DebiasAppend(done, block);
    DebiasBlock(block);
  }

  lemma {:induction false} DebiasBlock(block: seq<Bit>)
    requires |block| == BLOCK_BITS
    ensures Debias(block) == Extract(block)
  {
    hide Extract;
    assert block[..BLOCK_BITS] == block && block[BLOCK_BITS..] == [];
    assert Debias(block) == Extract(block) + [];
  }

  // ---------------------------------------------------------------------------
  // amls

  /** The cell that the extractor sees for a character: its distance from '0', as a signed byte. */
  function CellOf(c: Char8): (r: Cell)
    ensures (c - ASCII_ZERO - r) % 256 == 0
  {
    if c - ASCII_ZERO < 128 then c - ASCII_ZERO else c - ASCII_ZERO - 256
  }

  function CellsOf(text: seq<Char8>): (r: seq<Cell>)
    ensures |r| == |text|
  {
    seq(|text|, i requires 0 <= i < |text| => CellOf(text[i]))
  }

  function ToText(bits: seq<Bit>): (r: seq<Char8>)
    ensures |r| == |bits|
  {
    seq(|bits|, i requires 0 <= i < |bits| => bits[i] + ASCII_ZERO)
  }

  /** What the utility prints: the extraction of every whole block of its input, up to a stray character. */
  function Extracted(text: seq<Char8>): seq<Char8>
  {
    if |text| < BLOCK_BITS then []
    else ToText(Extract(BitPrefix(CellsOf(text[..BLOCK_BITS])))) + Extracted(text[BLOCK_BITS..])
  }

  /** On a text of bits the utility prints exactly the bits that the daemon would pack. */
  lemma {:induction false} ToolAgrees(text: seq<Char8>)
    requires forall i :: 0 <= i < |text| ==> text[i] == ASCII_ZERO || text[i] == ASCII_ONE
    ensures Extracted(text) == ToText(Debias(TextBits(text)))
  {
    hide Extract, TextBits, ToText, BitPrefix, CellsOf;
    if |text| < BLOCK_BITS {
      assert ToText([]) == [];
    } else {
      var head, rest := text[..BLOCK_BITS], text[BLOCK_BITS..];
      ToolAgrees(rest);
      TextBitsSplit(text);
      BlockAgrees(head);
      ToTextAppend(Extract(TextBits(head)), Debias(TextBits(rest)));
    }
  }

  lemma {:induction false} TextBitsSplit(text: seq<Char8>)
    requires |text| >= BLOCK_BITS
    ensures TextBits(text)[..BLOCK_BITS] == TextBits(text[..BLOCK_BITS])
    ensures TextBits(text)[BLOCK_BITS..] == TextBits(text[BLOCK_BITS..])
  {
  }

  lemma {:induction false} BlockAgrees(text: seq<Char8>)
    requires forall i :: 0 <= i < |text| ==> text[i] == ASCII_ZERO || text[i] == ASCII_ONE
    ensures BitPrefix(CellsOf(text)) == TextBits(text)
  {
    assert CellsOf(text) == TextBits(text);
  }

  lemma {:induction false} ToTextAppend(a: seq<Bit>, b: seq<Bit>)
    ensures ToText(a + b) == ToText(a) + ToText(b)
  {
  }

  method AmlsTool(input: seq<Char8>) returns (out: seq<Char8>)
    ensures out == Extracted(input)
  {
    hide Extracted, Extract, BitPrefix, ToText;
    var buf := new Cell[BLOCK_BITS];
    var pos := 0;
    out := [];
    assert input[0..] == input;
    while true
      invariant 0 <= pos <= |input|
      invariant out + Extracted(input[pos..]) == Extracted(input)
      decreases |input| - pos
    {
      ExtractedShape(input, pos);
      for i := 0 to BLOCK_BITS
        invariant pos + i <= |input|
        invariant forall k :: 0 <= k < i ==> buf[k] == CellOf(input[pos + k])
      {
        if pos + i == |input| {
          return;
        }
        buf[i] := CellOf(input[pos + i]);
      }
      var printed := PrintBlock(buf, CellsOf(input[pos..pos + BLOCK_BITS]));
      assert out + (printed + Extracted(input[pos + BLOCK_BITS..])) ==
             (out + printed) + Extracted(input[pos + BLOCK_BITS..]);
      out := out + printed;
      pos := pos + BLOCK_BITS;
    }
  }

  method PrintBlock(buf: array<Cell>, ghost cells: seq<Cell>) returns (printed: seq<Char8>)
    requires buf.Length == BLOCK_BITS == |cells| && forall k :: 0 <= k < BLOCK_BITS ==> buf[k] == cells[k]
    ensures printed == ToText(Extract(BitPrefix(cells)))
  {
    hide Extract, BitPrefix, ToText;
    assert buf[..buf.Length] == cells;
    var result := Amls(buf, buf.Length);
    printed := PrintBits(result, Extract(BitPrefix(cells)));
  }

  method PrintBits(result: array<Cell>, ghost bits: seq<Bit>) returns (printed: seq<Char8>)
    requires result.Length == BLOCK_BITS && |bits| < BLOCK_BITS && Holds(result, bits)
    ensures printed == ToText(bits)
  {
    printed := [];
    var i := 0;
    while i < BLOCK_BITS
      invariant 0 <= i <= |bits|
      invariant printed == ToText(bits[..i])
    {
      if result[i] == -1 {
        break;
      }
      printed := printed + [result[i] + ASCII_ZERO];
      i := i + 1;
    }
    assert bits[..i] == bits;
  }

  lemma {:induction false} ExtractedShape(input: seq<Char8>, pos: nat)
    requires pos <= |input|
    ensures |input| < pos + BLOCK_BITS ==> Extracted(input[pos..]) == []
    ensures pos + BLOCK_BITS <= |input| ==>
      Extracted(input[pos..]) ==
      ToText(Extract(BitPrefix(CellsOf(input[pos..pos + BLOCK_BITS])))) + Extracted(input[pos + BLOCK_BITS..])
  {
    hide Extract, BitPrefix, ToText;
    if pos + BLOCK_BITS <= |input| {
      assert input[pos..][..BLOCK_BITS] == input[pos..pos + BLOCK_BITS];
      assert input[pos..][BLOCK_BITS..] == input[pos + BLOCK_BITS..];
    }
  }
}
