/**
 The daemon's main loop: collect chunks of ASCII bits, debias full blocks, pack the debiased bits
 into a buffer, and write the folded buffer whenever it is full.
 */
module Daemon {
  import opened Extractor
  import opened AmlsArray
  import opened Packing
  import opened Stream
  import opened Arithmetic

  const CHUNK := 128
  const BUFFER_BYTES := 1024

  /** What a device offers when it is polled. */
  datatype Poll =
    | NotReady                    // fewer than 128 bytes waiting
    | ReadError                   // the read did not return 128 bytes
    | Chunk(data: seq<Cell>)      // 128 bytes

  /** One pass of the main loop: whether the alarm fired, and one poll for every device. */
  datatype Pass = Pass(alarm: bool, polls: seq<Poll>)

  datatype Status = Running | Exited(code: int)

  predicate IsAsciiBit(c: Cell)
  {
    c == ASCII_ZERO || c == ASCII_ONE
  }

  /** How often a character occurs. */
  function Count(data: seq<Cell>, c: Cell): nat
  {
    multiset(data)[c]
  }

  /** The bits that a chunk of ASCII digits spells. */
  function FromAscii(data: seq<Cell>): (bits: seq<Bit>)
    ensures |bits| == |data|
  {
    seq(|data|, i requires 0 <= i < |data| => AsciiBit(data[i]))
  }

  class Daemon {
    const buf: array<Cell>
    var bufPos: nat
    const whitened: array<Byte>
    var whitenedPos: nat
    var whitenedBit: nat
    var testEnt: bool
    var numOnes: nat
    var numZeros: nat
    var entCount: nat
    var deviceZeros: seq<nat>
    var deviceOnes: seq<nat>
    var out: seq<Byte>
    var status: Status

    // The bits collected so far; the debiased bits that came of them, split into those already
    // written out and those still in the buffer; the bits that were collected at the last report, and how
    // many debiased bits and written bytes there were; and the bits each device has delivered since.
    ghost var collected: seq<Bit>
    ghost var flushed: seq<Bit>
    ghost var pending: seq<Bit>
    ghost var mark: seq<Bit>
    ghost var reportedBits: nat
    ghost var reportedBytes: nat
    ghost var deviceBits: seq<seq<Bit>>

    ghost function Debiased(): seq<Bit>
      reads this`flushed, this`pending
    {
      flushed + pending
    }

    /** The packing buffer holds exactly the pending bits, and zeros after them. */
    ghost predicate Buffered()
      reads this`pending, this`whitenedPos, this`whitenedBit, whitened
    {
      && whitened.Length == BUFFER_BYTES
      && |pending| <= GROUP_BITS
      && whitenedPos == |pending| / 8 && whitenedBit == |pending| % 8
      && forall l :: 0 <= l < BUFFER_BYTES ==> whitened[l] == PackedAt(pending, l)
    }

    /** Every complete group of the flushed bits has been written, and nothing else. */
    ghost predicate Written()
      reads this`flushed, this`out
    {
      |flushed| % GROUP_BITS == 0 && out == Emitted(flushed)
    }

    /** The counters cover what happened since the last report. */
    ghost predicate Counted()
      reads this`flushed, this`pending, this`out, this`numOnes, this`numZeros, this`entCount
      reads this`reportedBits, this`reportedBytes
    {
      && reportedBits <= |Debiased()| && reportedBytes <= |out|
      && numOnes == Ones(Debiased()[reportedBits..])
      && numZeros + numOnes == |Debiased()| - reportedBits
      && entCount == |out| - reportedBytes
    }

    ghost predicate WhitenerValid()
      reads this`flushed, this`pending, this`out, this`numOnes, this`numZeros, this`entCount
      reads this`reportedBits, this`reportedBytes, this`whitenedPos, this`whitenedBit, whitened
    {
      Buffered() && |pending| < GROUP_BITS && Written() && Counted()
    }

    /** Adds one debiased bit to the packing buffer, and writes the buffer out once it is full. */
    method PushBit(b: Bit)
      requires WhitenerValid()
      modifies this`flushed, this`pending, this`out, this`numOnes, this`numZeros, this`entCount
      modifies this`whitenedPos, this`whitenedBit, whitened
      ensures WhitenerValid()
      ensures Debiased() == old(Debiased()) + [b]
    {
      hide Emitted, Ones, PackedAt;
      if b == 0 {
        numZeros := numZeros + 1;
      } else {
        numOnes := numOnes + 1;
      }
      CountOne(b);
      StoreBit(b);
      if whitenedPos >= BUFFER_BYTES {
        WriteOut();
      }
    }

    lemma CountOne(b: Bit)
      requires reportedBits <= |Debiased()|
      ensures flushed + (pending + [b]) == Debiased() + [b]
      ensures Ones((Debiased() + [b])[reportedBits..]) == Ones(Debiased()[reportedBits..]) + b
    {
      assert (Debiased() + [b])[reportedBits..] == Debiased()[reportedBits..] + [b];
      OnesAppend(Debiased()[reportedBits..], [b]);
    }

    method StoreBit(b: Bit)
      requires Buffered() && |pending| < GROUP_BITS
      modifies this`pending, this`whitenedPos, this`whitenedBit, whitened
      ensures Buffered() && pending == old(pending) + [b]
    {
      forall l | 0 <= l < BUFFER_BYTES
        ensures PackedAt(pending + [b], l) ==
                if l == whitenedPos then SetBit(PackedAt(pending, l), whitenedBit, b) else PackedAt(pending, l)
      {
        PackedAtAppend(pending, b, l);
      }
      whitened[whitenedPos] := SetBit(whitened[whitenedPos], whitenedBit, b);
      whitenedBit := whitenedBit + 1;
      if whitenedBit > 7 {
        whitenedBit := 0;
        whitenedPos := whitenedPos + 1;
      }
      pending := pending + [b];
    }

    /** Writes the full buffer, its halves xored, and clears it. */
    method WriteOut()
      requires Buffered() && |pending| == GROUP_BITS && Written() && Counted()
      modifies this`flushed, this`pending, this`out, this`entCount, this`whitenedPos, whitened
      ensures WhitenerValid()
      ensures Debiased() == old(Debiased())
    {
      hide Emitted, MixGroup, PackLsb, Ones;
      WriteHalves();
      EmittedAppend(flushed, pending);
      EmittedGroup(pending);
      assert flushed + pending + [] == flushed + pending;
      flushed, pending := flushed + pending, [];
      whitenedPos := 0;
      forall k | 0 <= k < whitened.Length {
        whitened[k] := 0;
      }
    }

    method WriteHalves()
      requires Buffered() && |pending| == GROUP_BITS
      modifies this`out, this`entCount
      ensures out == old(out) + MixGroup(pending)
      ensures entCount == old(entCount) + HALF_BYTES
    {
      hide PackedAt, MixGroup;
      var l := 0;
      while l < HALF_BYTES
        invariant 0 <= l <= HALF_BYTES
        invariant out == old(out) + MixGroup(pending)[..l]
        invariant entCount == old(entCount) + l
      {
        var value := whitened[l] ^ whitened[l + HALF_BYTES];
        entCount := entCount + 1;
        out := out + [value];
        MixGroupNext(pending, l);
        l := l + 1;
      }
      assert MixGroup(pending)[..HALF_BYTES] == MixGroup(pending);
    }

    // -------------------------------------------------------------------------
    // Collecting

    /** The collecting buffer holds the unfinished block, and all finished blocks are debiased. */
    ghost predicate CollectorValid()
      reads this`collected, this`flushed, this`pending, this`bufPos, buf
    {
      && buf.Length == BLOCK_BITS && buf as object != whitened
      && |collected| % CHUNK == 0 && bufPos == |Unfinished(collected)|
      && StartsWith(buf, Unfinished(collected))
      && Debiased() == Debias(collected)
    }

    /** The device counters cover the chunks delivered since the last report. */
    ghost predicate DevicesValid()
      reads this`deviceZeros, this`deviceOnes, this`deviceBits
    {
      DevicesCounted(deviceZeros, deviceOnes, deviceBits)
    }

    /** The report marks are those of the stream that was collected then. */
    ghost predicate Marked()
      reads this`mark, this`reportedBits, this`reportedBytes
    {
      reportedBits == |Debias(mark)| && reportedBytes == |Emitted(Debias(mark))|
    }

    /** What holds throughout. */
    ghost predicate Sound()
      reads this`flushed, this`pending, this`out, this`numOnes, this`numZeros, this`entCount
      reads this`mark, this`reportedBits, this`reportedBytes, this`whitenedPos, this`whitenedBit, whitened
      reads this`collected, this`bufPos, buf, this`deviceZeros, this`deviceOnes, this`deviceBits, this`status
    {
      WhitenerValid() && CollectorValid() && Marked() && (status.Running? ==> DevicesValid())
    }

    /** Besides, no report is due: it is made at the start of the pass in which the alarm is seen. */
    ghost predicate Valid()
      reads this`flushed, this`pending, this`out, this`numOnes, this`numZeros, this`entCount
      reads this`mark, this`reportedBits, this`reportedBytes, this`whitenedPos, this`whitenedBit, whitened
      reads this`collected, this`bufPos, buf, this`deviceZeros, this`deviceOnes, this`deviceBits, this`status
      reads this`testEnt
    {
      Sound() && !testEnt
    }

    /** Debiases the full buffer and hands the bits on. */
    method ProcessBlock(ghost block: seq<Bit>)
      requires WhitenerValid() && buf.Length == BLOCK_BITS && |block| == BLOCK_BITS && StartsWith(buf, block)
      modifies this`flushed, this`pending, this`out, this`numOnes, this`numZeros, this`entCount
      modifies this`whitenedPos, this`whitenedBit, whitened
      ensures WhitenerValid()
      ensures Debiased() == old(Debiased()) + Extract(block)
    {
      hide Extract, WhitenerValid, BitPrefix;
      StartsWithBits(buf, buf.Length, block);
      var result := Amls(buf, buf.Length);
      ghost var bits, before := Extract(block), Debiased();
      var k := 0;
      while k < buf.Length
        invariant 0 <= k <= |bits|
        invariant WhitenerValid()
        invariant Debiased() == before + bits[..k]
        invariant Holds(result, bits) && |bits| < result.Length
      {
        if result[k] != 0 && result[k] != 1 {
          break;
        }
        PushBit(result[k]);
        assert bits[..k + 1] == bits[..k] + [bits[k]];
        k := k + 1;
      }
      assert bits[..k] == bits;
    }

    /** Checks one character of the buffer, counts it for device i and turns it into a bit. */
    method ConvertChar(i: nat, k: nat) returns (ok: bool)
      requires k < buf.Length && i < |deviceZeros| == |deviceOnes|
      modifies this`deviceZeros, this`deviceOnes, buf
      ensures ok == IsAsciiBit(old(buf[k]))
      ensures forall l :: 0 <= l < buf.Length && l != k ==> buf[l] == old(buf[l])
      ensures !ok ==> buf[k] == old(buf[k]) && deviceZeros == old(deviceZeros) && deviceOnes == old(deviceOnes)
      // An accepted character is its bit's distance from '0', and is counted as what it spells.
      ensures ok ==> buf[k] + ASCII_ZERO == old(buf[k]) && buf[k] == AsciiBit(old(buf[k]))
      ensures ok ==> deviceOnes == old(deviceOnes)[i := old(deviceOnes)[i] + Count([old(buf[k])], ASCII_ONE)]
      ensures ok ==> deviceZeros == old(deviceZeros)[i := old(deviceZeros)[i] + Count([old(buf[k])], ASCII_ZERO)]
    {
      if buf[k] != ASCII_ZERO && buf[k] != ASCII_ONE {
        return false;
      }
      if buf[k] == ASCII_ZERO {
        deviceZeros := deviceZeros[i := deviceZeros[i] + 1];
        buf[k] := 0;
      } else {
        deviceOnes := deviceOnes[i := deviceOnes[i] + 1];
        buf[k] := 1;
      }
      ok := true;
    }

    /**
     Reads a chunk behind the unfinished block, checks its characters, counts them for device i and
     turns them into bits in place. Stops at the first character that is not an ASCII bit.
     */
    method ConvertChunk(i: nat, data: seq<Cell>, ghost r: seq<Bit>) returns (ok: bool)
      requires |data| == CHUNK && buf.Length == BLOCK_BITS && bufPos + CHUNK <= BLOCK_BITS
      requires StartsWith(buf, r) && |r| == bufPos
      requires i < |deviceZeros| == |deviceOnes|
      modifies this`deviceZeros, this`deviceOnes, buf
      ensures ok == AllAscii(data)
      ensures StartsWith(buf, r)
      ensures ok ==> StartsWith(buf, r + FromAscii(data))
      ensures ok ==> forall j :: 0 <= j < CHUNK ==> buf[bufPos + j] + ASCII_ZERO == data[j]
      ensures ok ==> deviceOnes == old(deviceOnes[i := deviceOnes[i] + Count(data, ASCII_ONE)])
      ensures ok ==> deviceZeros == old(deviceZeros[i := deviceZeros[i] + Count(data, ASCII_ZERO)])
    {
      hide Count;
      forall j | 0 <= j < CHUNK {
        buf[bufPos + j] := data[j];
      }
      ghost var bits := FromAscii(data);
      CountNone();
      var j := 0;
      while j < CHUNK
        invariant 0 <= j <= CHUNK
        invariant forall k :: 0 <= k < j ==> IsAsciiBit(data[k])
        invariant forall l :: 0 <= l < bufPos ==> buf[l] == r[l]
        invariant forall l :: bufPos <= l < bufPos + j ==> buf[l] == bits[l - bufPos]
        invariant forall l :: bufPos + j <= l < bufPos + CHUNK ==> buf[l] == data[l - bufPos]
        invariant deviceOnes == old(deviceOnes)[i := old(deviceOnes)[i] + Count(data[..j], ASCII_ONE)]
        invariant deviceZeros == old(deviceZeros)[i := old(deviceZeros)[i] + Count(data[..j], ASCII_ZERO)]
      {
        ok := ConvertChar(i, bufPos + j);
        if !ok {
          assert data[j] in data;
          return;
        }
        CountNext(data, j, ASCII_ONE);
        CountNext(data, j, ASCII_ZERO);
        j := j + 1;
      }
      assert data[..CHUNK] == data;
      Spells(data);
      ok := true;
    }

    /** Converts a chunk into the buffer, or exits at a byte that is not an ASCII bit. */
    method TakeChunk(i: nat, data: seq<Cell>)
      requires Valid() && status.Running? && i < |deviceBits| && |data| == CHUNK
      modifies this`collected, this`bufPos, this`deviceZeros, this`deviceOnes, this`deviceBits, this`status, buf
      modifies this`flushed, this`pending, this`out, this`numOnes, this`numZeros, this`entCount
      modifies this`whitenedPos, this`whitenedBit, whitened
      ensures Valid() && |deviceBits| == old(|deviceBits|)
      ensures status == if AllAscii(data) then Running else Exited(-11)
      ensures collected == if AllAscii(data) then old(collected) + FromAscii(data) else old(collected)
      ensures AllAscii(data) ==> deviceBits == old(deviceBits)[i := old(deviceBits)[i] + FromAscii(data)]
    {
      hide WhitenerValid, Debias, FromAscii, Unfinished, Marked, DevicesCounted, AllAscii;
      ghost var bits := FromAscii(data);
      CountersMatch(deviceZeros, deviceOnes, deviceBits);
      var ok := ConvertChunk(i, data, Unfinished(collected));
      if !ok {
        status := Exited(-11);
        return;
      }
      OnesSpelled(data);
      DeviceCountsAdd(old(deviceZeros), old(deviceOnes), deviceBits, i, bits);
      deviceBits := deviceBits[i := deviceBits[i] + bits];
      AdvanceBuffer(bits);
    }

    /** Polls device i: nothing happens until 128 bytes wait, and bad input ends the daemon. */
    method ReadDevice(i: nat, poll: Poll)
      requires Valid() && status.Running? && i < |deviceBits|
      requires poll.Chunk? ==> |poll.data| == CHUNK
      modifies this`collected, this`bufPos, this`deviceZeros, this`deviceOnes, this`deviceBits, this`status, buf
      modifies this`flushed, this`pending, this`out, this`numOnes, this`numZeros, this`entCount
      modifies this`whitenedPos, this`whitenedBit, whitened
      ensures Valid()
      ensures collected == old(collected) + Taken([poll])
      ensures status.Running? == Survives([poll]) && |deviceBits| == old(|deviceBits|)
      ensures poll.ReadError? ==> status == Exited(-9)
      ensures poll.Chunk? && !AllAscii(poll.data) ==> status == Exited(-11)
      ensures status.Running? ==> deviceBits == old(deviceBits)[i := old(deviceBits)[i] + Taken([poll])]
    {
      hide WhitenerValid, CollectorValid, DevicesValid, Marked, FromAscii, Taken, Survives, AllAscii;
      TakenOne(poll);
      if poll.NotReady? {
        assert deviceBits[i] + Taken([poll]) == deviceBits[i];
        return;
      }
      if poll.ReadError? {
        status := Exited(-9);
        return;
      }
      TakeChunk(i, poll.data);
    }

    /** Moves past the chunk just converted, and processes the buffer once it is full. */
    method AdvanceBuffer(ghost bits: seq<Bit>)
      requires WhitenerValid() && |bits| == CHUNK
      requires buf as object != whitened
      requires buf.Length == BLOCK_BITS && |collected| % CHUNK == 0 && bufPos == |Unfinished(collected)|
      requires Debiased() == Debias(collected) && StartsWith(buf, Unfinished(collected) + bits)
      modifies this`collected, this`bufPos
      modifies this`flushed, this`pending, this`out, this`numOnes, this`numZeros, this`entCount
      modifies this`whitenedPos, this`whitenedBit, whitened
      ensures WhitenerValid() && CollectorValid()
      ensures collected == old(collected) + bits
    {
      hide WhitenerValid, Debias, Extract, Unfinished;
      ghost var r := Unfinished(collected);
      CollectChunk(collected, bits);
      collected := collected + bits;
      bufPos := bufPos + CHUNK;
      if bufPos >= BLOCK_BITS {
        ProcessBlock(r + bits);
        bufPos := 0;
      }
    }

    // -------------------------------------------------------------------------
    // Statistics and the main loop

    constructor (devices: nat)
      ensures Valid() && fresh(buf) && fresh(whitened)
      ensures status.Running? && collected == [] && out == [] && mark == []
      ensures numZeros == 0 && numOnes == 0 && entCount == 0
      ensures |deviceBits| == |deviceZeros| == |deviceOnes| == devices
      ensures forall i :: 0 <= i < devices ==> deviceBits[i] == [] && deviceZeros[i] == 0 && deviceOnes[i] == 0
    {
      hide Sound;
      buf := new Cell[BLOCK_BITS](_ => 0);
      whitened := new Byte[BUFFER_BYTES](_ => 0);
      bufPos, whitenedPos, whitenedBit := 0, 0, 0;
      testEnt, numOnes, numZeros, entCount := false, 0, 0, 0;
      deviceZeros, deviceOnes := seq(devices, _ => 0), seq(devices, _ => 0);
      out, status := [], Running;
      collected, flushed, pending, mark, reportedBits, reportedBytes := [], [], [], [], 0, 0;
      deviceBits := seq(devices, _ => []);
      new;
      StartsSound(devices);
    }

    lemma StartsSound(devices: nat)
      requires whitened.Length == BUFFER_BYTES && forall l :: 0 <= l < BUFFER_BYTES ==> whitened[l] == 0
      requires buf.Length == BLOCK_BITS && buf as object != whitened && bufPos == 0 && collected == [] && flushed == []
      requires pending == [] && whitenedPos == 0 && whitenedBit == 0 && mark == [] && out == []
      requires numOnes == 0 && numZeros == 0 && entCount == 0 && reportedBits == 0 && reportedBytes == 0
      requires |deviceBits| == |deviceZeros| == |deviceOnes| == devices
      requires forall i :: 0 <= i < devices ==> deviceBits[i] == [] && deviceZeros[i] == 0 && deviceOnes[i] == 0
      ensures Sound()
    {
      hide Buffered, Written, Counted, CollectorValid, Marked, Ones;
      StartsEmpty();
      StartsUncounted();
      OnesOfNone();
    }

    lemma StartsEmpty()
      requires whitened.Length == BUFFER_BYTES && forall l :: 0 <= l < BUFFER_BYTES ==> whitened[l] == 0
      requires pending == [] && whitenedPos == 0 && whitenedBit == 0
      requires buf.Length == BLOCK_BITS && buf as object != whitened && bufPos == 0 && collected == [] && flushed == []
      ensures Buffered() && CollectorValid()
    {
      hide PackedAt, Debias, Unfinished;
      NothingYet();
    }

    lemma StartsUncounted()
      requires pending == [] && flushed == [] && mark == [] && out == []
      requires numOnes == 0 && numZeros == 0 && entCount == 0 && reportedBits == 0 && reportedBytes == 0
      ensures Written() && Counted() && Marked()
    {
      hide Ones, Debias, Emitted;
      NothingYet();
      OnesOfNone();
      assert Debiased()[0..] == [];
    }

    /** The scheduled report: the counters start again from here. */
    method Report()
      requires Sound() && status.Running?
      modifies this`testEnt, this`numOnes, this`numZeros, this`entCount, this`deviceZeros, this`deviceOnes
      modifies this`mark, this`reportedBits, this`reportedBytes, this`deviceBits
      ensures Valid() && mark == collected
      ensures numZeros == 0 && numOnes == 0 && entCount == 0
      ensures deviceBits == seq(|old(deviceBits)|, _ => [])
    {
      hide Buffered, Written, DevicesCounted, Counted, Debias, Emitted, Unfinished;
      WrittenSoFar();
      ResetDevices();
      ResetCounters();
    }

    method ResetCounters()
      requires Debiased() == Debias(collected) && out == Emitted(Debias(collected))
      modifies this`testEnt, this`numOnes, this`numZeros, this`entCount
      modifies this`mark, this`reportedBits, this`reportedBytes
      ensures Counted() && Marked() && !testEnt && mark == collected
      ensures numZeros == 0 && numOnes == 0 && entCount == 0
    {
      hide Ones, Debias, Emitted;
      OnesOfNone();
      testEnt := false;
      entCount := 0;
      numZeros := 0;
      numOnes := 0;
      mark, reportedBits, reportedBytes := collected, |Debiased()|, |out|;
      assert Debiased()[reportedBits..] == [];
    }

    method ResetDevices()
      requires DevicesValid()
      modifies this`deviceZeros, this`deviceOnes, this`deviceBits
      ensures DevicesValid()
      ensures deviceBits == seq(|old(deviceBits)|, _ => [])
    {
      var i := 0;
      while i < |deviceZeros|
        modifies this`deviceZeros, this`deviceOnes
        invariant 0 <= i <= |deviceZeros| == |deviceOnes| == |deviceBits|
        invariant forall k :: 0 <= k < i ==> deviceZeros[k] == deviceOnes[k] == 0
      {
        deviceZeros := deviceZeros[i := 0];
        deviceOnes := deviceOnes[i := 0];
        i := i + 1;
      }
      deviceBits := seq(|deviceBits|, _ => []);
    }

    /** One pass: the report if it is due, then every device in turn until one ends the daemon. */
    method RunPass(pass: Pass)
      requires Valid() && status.Running? && WellFormed(pass, |deviceBits|)
      modifies this, buf, whitened
      ensures Valid() && |deviceBits| == old(|deviceBits|)
      ensures collected == old(collected) + Taken(pass.polls)
      ensures status.Running? == Survives(pass.polls)
      ensures mark == if pass.alarm then old(collected) else old(mark)
      ensures status.Running? ==> forall i :: 0 <= i < |deviceBits| ==>
        deviceBits[i] == (if pass.alarm then [] else old(deviceBits)[i]) + Taken([pass.polls[i]])
    {
      hide Sound, Taken, Survives;
      if pass.alarm {
        testEnt := true;
      }
      if testEnt {
        Report();
      }
      ReadDevices(pass.polls);
    }

    method ReadDevices(polls: seq<Poll>)
      requires Valid() && status.Running? && WellFormed(Pass(false, polls), |deviceBits|)
      modifies this, buf, whitened
      ensures Valid() && |deviceBits| == old(|deviceBits|) && mark == old(mark)
      ensures collected == old(collected) + Taken(polls)
      ensures status.Running? == Survives(polls)
      ensures status.Running? ==> forall i :: 0 <= i < |deviceBits| ==>
        deviceBits[i] == old(deviceBits)[i] + Taken([polls[i]])
    {
      hide Valid, Taken, Survives, AllPolls, Polled;
      AllPollsNone();
      PolledNone(deviceBits, polls);
      var i := 0;
      while i < |polls| && status.Running?
        invariant 0 <= i <= |polls| == |deviceBits| == old(|deviceBits|)
        invariant Valid() && mark == old(mark)
        invariant collected == old(collected) + Taken(polls[..i])
        invariant status.Running? == Survives(polls[..i])
        invariant status.Running? ==> Polled(deviceBits, old(deviceBits), polls, i)
      {
        assert polls[i] in polls;
        ghost var before := deviceBits;
        ReadDevice(i, polls[i]);
        if status.Running? {
          PolledNext(before, deviceBits, old(deviceBits), polls, i);
        }
        assert polls[..i + 1] == polls[..i] + [polls[i]];
        TakenAppend(polls[..i], [polls[i]]);
        SurvivesAppend(polls[..i], [polls[i]]);
        i := i + 1;
      }
      assert polls == polls[..i] + polls[i..];
      TakenAppend(polls[..i], polls[i..]);
      SurvivesAppend(polls[..i], polls[i..]);
      if status.Running? {
        PolledAll(deviceBits, old(deviceBits), polls);
      }
    }

    /** Any number of passes, from any state of the daemon. */
    method Run(passes: seq<Pass>)
      requires Valid() && status.Running? && AllWellFormed(passes, |deviceBits|)
      modifies this, buf, whitened
      ensures Valid() && |deviceBits| == old(|deviceBits|)
      ensures collected == old(collected) + Taken(AllPolls(passes))
      ensures status.Running? == Survives(AllPolls(passes))
      ensures out == Emitted(Debias(collected))
      // What the counters cover: everything since the last alarm, or since before if there was none.
      ensures status.Running? ==> mark == MarkAfter(old(collected), old(mark), passes)
      ensures status.Running? ==> forall i :: 0 <= i < |deviceBits| ==>
        deviceBits[i] == (if AnyAlarm(passes) then [] else old(deviceBits)[i]) + Delivered(Recent(passes), i)
      ensures |Debias(mark)| <= |Debias(collected)| && numOnes == Ones(Debias(collected)[|Debias(mark)|..])
      ensures numZeros + numOnes == |Debias(collected)| - |Debias(mark)|
      ensures entCount == |out| - |Emitted(Debias(mark))|
      ensures status.Running? ==> DevicesCounted(deviceZeros, deviceOnes, deviceBits)
    {
      hide Sound, Taken, Survives, AllPolls, Recent, Delivered, AnyAlarm, AllWellFormed, Debias, Emitted, Ones, Since;
      ghost var devices := |deviceBits|;
      AllPollsNone();
      RunNothing(devices, old(deviceBits), old(collected), old(mark));
      var k := 0;
      while k < |passes| && status.Running?
        invariant 0 <= k <= |passes| && |deviceBits| == devices
        invariant Valid() && AllWellFormed(passes[..k], devices)
        invariant collected == old(collected) + Taken(AllPolls(passes[..k]))
        invariant status.Running? == Survives(AllPolls(passes[..k]))
        invariant status.Running? ==> mark == MarkAfter(old(collected), old(mark), passes[..k])
        invariant status.Running? ==> Since(deviceBits, old(deviceBits), passes[..k])
      {
        WellFormedAt(passes, k, devices);
        ghost var before := deviceBits;
        RunPass(passes[k]);
        assert passes[..k + 1] == passes[..k] + [passes[k]];
        TakenNext(passes[..k], passes[k]);
        MarkNext(old(collected), old(mark), passes[..k], passes[k]);
        if status.Running? {
          SinceNext(before, deviceBits, old(deviceBits), passes[..k], passes[k]);
        }
        k := k + 1;
      }
      TakenRest(passes, k);
      assert status.Running? ==> passes[..k] == passes;
      WrittenSoFar();
      Statistics();
      if status.Running? {
        SinceMeans(deviceBits, old(deviceBits), passes);
      }
    }

    /** What the counters say in every state. */
    lemma Statistics()
      requires Sound()
      ensures |Debias(mark)| <= |Debias(collected)| && numOnes == Ones(Debias(collected)[|Debias(mark)|..])
      ensures numZeros + numOnes == |Debias(collected)| - |Debias(mark)|
      ensures entCount == |out| - |Emitted(Debias(mark))|
      ensures status.Running? ==> DevicesCounted(deviceZeros, deviceOnes, deviceBits)
    {
      hide Debias, Emitted, Ones, DevicesCounted, PackedAt, Unfinished;
    }

    /** In every state: what has been written, what the buffers hold, and that no bit is lost. */
    lemma WrittenSoFar()
      requires Sound()
      ensures var w := Debias(collected);
              && out == Emitted(w)
              && |w| == 16 * |out| + 8 * whitenedPos + whitenedBit
              && (forall l :: 0 <= l < BUFFER_BYTES ==> whitened[l] == PackedAt(w[16 * |out|..], l))
              && StartsWith(buf, Unfinished(collected))
    {
      EmittedAppend(flushed, pending);
      assert Emitted(pending) == [];
      assert |flushed| == 16 * |out|;
      assert Debias(collected)[16 * |out|..] == pending;
    }
  }

  predicate WellFormed(pass: Pass, devices: nat)
  {
    |pass.polls| == devices && forall p :: p in pass.polls && p.Chunk? ==> |p.data| == CHUNK
  }

  /** The first n devices have added what their polls delivered. */
  ghost predicate Polled(bits: seq<seq<Bit>>, before: seq<seq<Bit>>, polls: seq<Poll>, n: nat)
  {
    && |bits| == |before| == |polls|
    && forall i :: 0 <= i < |bits| ==> bits[i] == before[i] + if i < n then Taken([polls[i]]) else []
  }

  lemma {:induction false} PolledNone(bits: seq<seq<Bit>>, polls: seq<Poll>)
    requires |bits| == |polls|
    ensures Polled(bits, bits, polls, 0)
  {
    hide Taken;
  }

  lemma {:induction false} PolledNext(bits: seq<seq<Bit>>, after: seq<seq<Bit>>, before: seq<seq<Bit>>,
                                      polls: seq<Poll>, n: nat)
    requires Polled(bits, before, polls, n) && n < |polls| && after == bits[n := bits[n] + Taken([polls[n]])]
    ensures Polled(after, before, polls, n + 1)
  {
    hide Taken;
    assert bits[n] == before[n] + [];
  }

  lemma {:induction false} PolledAll(bits: seq<seq<Bit>>, before: seq<seq<Bit>>, polls: seq<Poll>)
    requires Polled(bits, before, polls, |polls|)
    ensures |bits| == |before| == |polls|
    ensures forall i :: 0 <= i < |bits| ==> bits[i] == before[i] + Taken([polls[i]])
  {
    hide Taken;
  }

  ghost predicate AllWellFormed(passes: seq<Pass>, devices: nat)
  {
    forall p :: p in passes ==> WellFormed(p, devices)
  }

  lemma {:induction false} WellFormedAt(passes: seq<Pass>, k: nat, devices: nat)
    requires AllWellFormed(passes, devices) && k < |passes|
    ensures WellFormed(passes[k], devices) && AllWellFormed(passes[..k + 1], devices)
  {
    assert passes[k] in passes;
  }

  // ---------------------------------------------------------------------------
  // What happened since the last alarm

  predicate AnyAlarm(passes: seq<Pass>)
  {
    exists i :: 0 <= i < |passes| && passes[i].alarm
  }

  /** The passes from the last alarm on, or all of them. */
  function Recent(passes: seq<Pass>): (r: seq<Pass>)
    ensures |r| <= |passes|
  {
    if passes == [] then []
    else
      var front, last := passes[..|passes| - 1], passes[|passes| - 1];
      if last.alarm then [last] else Recent(front) + [last]
  }

  /** The rest of the passes from some point on: it starts with an alarm and has none behind it, or is all of them. */
  ghost predicate IsRecent(r: seq<Pass>, passes: seq<Pass>)
  {
    && |r| <= |passes| && r == passes[|passes| - |r|..]
    && if AnyAlarm(passes) then r != [] && r[0].alarm && !AnyAlarm(r[1..]) else r == passes
  }

  lemma {:induction false} RecentMeans(passes: seq<Pass>)
    ensures IsRecent(Recent(passes), passes)
  {
    hide IsRecent, Recent;
    if passes == [] {
      RecentNone();
    } else {
      var front, last := passes[..|passes| - 1], passes[|passes| - 1];
      assert passes == front + [last];
      RecentMeans(front);
      RecentNext(front, last);
      RecentStep(front, last, Recent(front));
    }
  }

  lemma {:induction false} RecentNone()
    ensures IsRecent(Recent([]), [])
  {
    NoAlarm();
  }

  lemma {:induction false} RecentStep(front: seq<Pass>, last: Pass, r: seq<Pass>)
    requires IsRecent(r, front)
    ensures IsRecent(if last.alarm then [last] else r + [last], front + [last])
  {
    hide AnyAlarm;
    AlarmNext(front, last);
    if last.alarm {
      NoAlarm();
      assert [last][1..] == [];
    } else if AnyAlarm(front) {
      AlarmNext(r[1..], last);
      assert (r + [last])[1..] == r[1..] + [last];
    }
  }

  lemma {:induction false} NoAlarm()
    ensures !AnyAlarm([])
  {
  }

  lemma {:induction false} AlarmNext(passes: seq<Pass>, p: Pass)
    ensures AnyAlarm(passes + [p]) == (p.alarm || AnyAlarm(passes))
  {
    var all := passes + [p];
    assert all[|passes|] == p;
    if AnyAlarm(passes) {
      var i :| 0 <= i < |passes| && passes[i].alarm;
      assert all[i].alarm;
    }
  }

  /** The bits that device i delivered in these passes. */
  function Delivered(passes: seq<Pass>, i: nat): seq<Bit>
  {
    if passes == [] then []
    else
      var front, last := passes[..|passes| - 1], passes[|passes| - 1];
      Delivered(front, i) + if i < |last.polls| then Taken([last.polls[i]]) else []
  }

  /** How many chunks device i delivered in these passes. */
  function Chunks(passes: seq<Pass>, i: nat): nat
  {
    if passes == [] then 0
    else
      var front, last := passes[..|passes| - 1], passes[|passes| - 1];
      Chunks(front, i) + if i < |last.polls| && last.polls[i].Chunk? then 1 else 0
  }

  /** The collected stream at the last report after these passes. */
  function MarkAfter(collected: seq<Bit>, mark: seq<Bit>, passes: seq<Pass>): seq<Bit>
  {
    if AnyAlarm(passes) then collected + Taken(AllPolls(passes[..|passes| - |Recent(passes)|])) else mark
  }

  /** Each device's bits are the ones delivered since the last alarm, behind the old ones if there was none. */
  ghost predicate Since(bits: seq<seq<Bit>>, before: seq<seq<Bit>>, passes: seq<Pass>)
  {
    |bits| == |before| && forall i :: 0 <= i < |bits| ==>
      bits[i] == (if AnyAlarm(passes) then [] else before[i]) + Delivered(Recent(passes), i)
  }

  lemma {:induction false} RecentNext(passes: seq<Pass>, p: Pass)
    ensures Recent(passes + [p]) == if p.alarm then [p] else Recent(passes) + [p]
  {
    assert (passes + [p])[..|passes|] == passes;
  }

  lemma {:induction false} DeliveredNext(passes: seq<Pass>, p: Pass, i: nat)
    ensures Delivered(passes + [p], i) == Delivered(passes, i) + if i < |p.polls| then Taken([p.polls[i]]) else []
  {
    hide Taken;
    assert (passes + [p])[..|passes|] == passes;
  }

  lemma {:induction false} MarkNext(collected: seq<Bit>, mark: seq<Bit>, passes: seq<Pass>, p: Pass)
    ensures MarkAfter(collected, mark, passes + [p]) ==
            if p.alarm then collected + Taken(AllPolls(passes)) else MarkAfter(collected, mark, passes)
  {
    hide Recent, AnyAlarm, Taken, AllPolls;
    RecentNext(passes, p);
    AlarmNext(passes, p);
    assert (passes + [p])[..|passes|] == passes;
    var n := |passes| - |Recent(passes)|;
    assert (passes + [p])[..n] == passes[..n];
  }

  lemma {:induction false} SinceNext(bits: seq<seq<Bit>>, after: seq<seq<Bit>>, before: seq<seq<Bit>>,
                                     passes: seq<Pass>, p: Pass)
    requires Since(bits, before, passes) && |after| == |bits| == |p.polls|
    requires forall i :: 0 <= i < |after| ==> after[i] == (if p.alarm then [] else bits[i]) + Taken([p.polls[i]])
    ensures Since(after, before, passes + [p])
  {
    hide Recent, AnyAlarm, Taken, Delivered;
    forall i | 0 <= i < |after|
      ensures after[i] == (if AnyAlarm(passes + [p]) then [] else before[i]) + Delivered(Recent(passes + [p]), i)
    {
      DeviceNext(bits[i], before[i], passes, p, i);
    }
  }

  lemma {:induction false} DeviceNext(bits: seq<Bit>, before: seq<Bit>, passes: seq<Pass>, p: Pass, i: nat)
    requires bits == (if AnyAlarm(passes) then [] else before) + Delivered(Recent(passes), i) && i < |p.polls|
    ensures (if p.alarm then [] else bits) + Taken([p.polls[i]]) ==
            (if AnyAlarm(passes + [p]) then [] else before) + Delivered(Recent(passes + [p]), i)
  {
    hide Recent, AnyAlarm, Taken, Delivered;
    RecentNext(passes, p);
    AlarmNext(passes, p);
    if p.alarm {
      DeliveredNext([], p, i);
      DeliveredNone(i);
      assert [] + [p] == [p];
    } else {
      DeliveredNext(Recent(passes), p, i);
      var old_, new_ := Delivered(Recent(passes), i), Taken([p.polls[i]]);
      assert before + old_ + new_ == before + (old_ + new_) && [] + old_ + new_ == [] + (old_ + new_);
    }
  }

  lemma {:induction false} SinceMeans(bits: seq<seq<Bit>>, before: seq<seq<Bit>>, passes: seq<Pass>)
    requires Since(bits, before, passes)
    ensures |bits| == |before| && forall i :: 0 <= i < |bits| ==>
              bits[i] == (if AnyAlarm(passes) then [] else before[i]) + Delivered(Recent(passes), i)
  {
  }

  lemma {:induction false} DeliveredNone(i: nat)
    ensures Delivered([], i) == []
  {
  }

  lemma {:induction false} RunNothing(devices: nat, bits: seq<seq<Bit>>, collected: seq<Bit>, mark: seq<Bit>)
    ensures AllWellFormed([], devices) && MarkAfter(collected, mark, []) == mark && Since(bits, bits, [])
  {
    NoAlarm();
  }

  lemma {:induction false} TakenNext(passes: seq<Pass>, p: Pass)
    ensures Survives(AllPolls(passes + [p])) <==> Survives(AllPolls(passes)) && Survives(p.polls)
    ensures Survives(AllPolls(passes)) ==> Taken(AllPolls(passes + [p])) == Taken(AllPolls(passes)) + Taken(p.polls)
  {
    hide Survives, Taken, AllPolls;
    AllPollsAppend(passes, [p]);
    AllPollsOne(p);
    TakenAppend(AllPolls(passes), p.polls);
    SurvivesAppend(AllPolls(passes), p.polls);
  }

  /** Once a poll has ended the daemon, later passes do not matter. */
  lemma {:induction false} TakenRest(passes: seq<Pass>, k: nat)
    requires k <= |passes| && (k < |passes| ==> !Survives(AllPolls(passes[..k])))
    ensures Taken(AllPolls(passes)) == Taken(AllPolls(passes[..k]))
    ensures Survives(AllPolls(passes)) <==> Survives(AllPolls(passes[..k]))
  {
    hide Survives, Taken, AllPolls;
    assert passes == passes[..k] + passes[k..];
    AllPollsAppend(passes[..k], passes[k..]);
    if k < |passes| {
      TakenAppend(AllPolls(passes[..k]), AllPolls(passes[k..]));
      SurvivesAppend(AllPolls(passes[..k]), AllPolls(passes[k..]));
    } else {
      assert passes[..k] == passes;
    }
  }

  /** A device's bits come in whole chunks. */
  lemma {:induction false} DeliveredCount(passes: seq<Pass>, i: nat, devices: nat)
    requires AllWellFormed(passes, devices) && i < devices && Survives(AllPolls(passes))
    ensures |Delivered(passes, i)| == CHUNK * Chunks(passes, i)
  {
    if passes != [] {
      var front, last := passes[..|passes| - 1], passes[|passes| - 1];
      assert passes == front + [last] && last in passes && last.polls[i] in last.polls;
      TakenNext(front, last);
      DeliveredCount(front, i, devices);
      TakenOne(last.polls[i]);
    }
  }

  function AllPolls(passes: seq<Pass>): seq<Poll>
  {
    if passes == [] then [] else passes[0].polls + AllPolls(passes[1..])
  }

  lemma {:induction false} AllPollsNone()
    ensures AllPolls([]) == [] && Taken([]) == [] && Survives([])
  {
  }

  lemma {:induction false} AllPollsOne(pass: Pass)
    ensures AllPolls([pass]) == pass.polls
  {
    assert [pass][1..] == [];
  }

  lemma {:induction false} AllPollsAppend(a: seq<Pass>, b: seq<Pass>)
    ensures AllPolls(a + b) == AllPolls(a) + AllPolls(b)
  {
    if a == [] {
      assert a + b == b;
      assert AllPolls(a) == [];
    } else {
      AllPollsAppend(a[1..], b);
      assert (a + b)[1..] == a[1..] + b;
      assert AllPolls(a + b) == a[0].polls + AllPolls(a[1..] + b);
      assert a[0].polls + (AllPolls(a[1..]) + AllPolls(b)) == (a[0].polls + AllPolls(a[1..])) + AllPolls(b);
    }
  }

  ghost predicate DevicesCounted(zeros: seq<nat>, ones: seq<nat>, bits: seq<seq<Bit>>)
  {
    && |zeros| == |ones| == |bits|
    && forall i :: 0 <= i < |bits| ==> ones[i] == Ones(bits[i]) && zeros[i] + ones[i] == |bits[i]|
  }

  lemma {:induction false} CountersMatch(zeros: seq<nat>, ones: seq<nat>, bits: seq<seq<Bit>>)
    requires DevicesCounted(zeros, ones, bits)
    ensures |zeros| == |ones| == |bits|
  {
  }

  lemma {:induction false} DeviceCountsAdd(zeros: seq<nat>, ones: seq<nat>, bits: seq<seq<Bit>>, i: nat, new_: seq<Bit>)
    requires DevicesCounted(zeros, ones, bits) && i < |bits|
    ensures DevicesCounted(zeros[i := zeros[i] + |new_| - Ones(new_)], ones[i := ones[i] + Ones(new_)],
            bits[i := bits[i] + new_])
  {
    OnesAppend(bits[i], new_);
  }

  /** The bits that a sequence of polls delivers, up to the one that ends the daemon. */
  function Taken(polls: seq<Poll>): seq<Bit>
  {
    if polls == [] then []
    else match polls[0]
      case NotReady => Taken(polls[1..])
      case ReadError => []
      case Chunk(data) => if AllAscii(data) then FromAscii(data) + Taken(polls[1..]) else []
  }

  /** No poll in the sequence ends the daemon. */
  predicate Survives(polls: seq<Poll>)
  {
    forall p :: p in polls ==> p.NotReady? || (p.Chunk? && AllAscii(p.data))
  }

  lemma {:induction false} TakenOne(p: Poll)
    ensures Taken([p]) == if p.Chunk? && AllAscii(p.data) then FromAscii(p.data) else []
    ensures Survives([p]) <==> p.NotReady? || (p.Chunk? && AllAscii(p.data))
  {
    assert [p][1..] == [] && p in [p];
  }

  lemma {:induction false} SurvivesAppend(a: seq<Poll>, b: seq<Poll>)
    ensures Survives(a + b) <==> Survives(a) && Survives(b)
  {
    if Survives(a + b) {
      forall p | p in a || p in b ensures p in a + b {}
    }
  }

  lemma {:induction false} TakenAppend(a: seq<Poll>, b: seq<Poll>)
    ensures Taken(a + b) == if Survives(a) then Taken(a) + Taken(b) else Taken(a)
  {
    if a == [] {
      assert a + b == b;
    } else {
      TakenAppend(a[1..], b);
      assert (a + b)[1..] == a[1..] + b;
      hide Survives, FromAscii, AllAscii;
      TakenOne(a[0]);
      SurvivesAppend([a[0]], a[1..]);
      assert a == [a[0]] + a[1..];
    }
  }

  function AsciiBit(c: Cell): Bit
  {
    if c == ASCII_ZERO then 0 else 1
  }

  lemma {:induction false} NothingYet()
    ensures Debias([]) == [] && Emitted([]) == []
    ensures forall l: nat :: PackedAt([], l) == 0
    ensures Unfinished([]) == []
  {
  }

  lemma {:induction false} MixGroupNext(g: seq<Bit>, l: nat)
    requires |g| == GROUP_BITS && l < HALF_BYTES
    ensures MixGroup(g)[..l + 1] == MixGroup(g)[..l] + [PackedAt(g, l) ^ PackedAt(g, l + HALF_BYTES)]
  {
    hide PackedAt;
    var m := MixGroup(g);
    assert m[..l + 1] == m[..l] + [m[l]];
  }

  lemma {:induction false} OnesOfNone()
    ensures Ones([]) == 0
  {
  }

  lemma {:induction false} CountNone()
    ensures forall c :: Count([], c) == 0
  {
  }

  lemma {:induction false} CountNext(data: seq<Cell>, j: nat, c: Cell)
    requires j < |data|
    ensures Count(data[..j + 1], c) == Count(data[..j], c) + Count([data[j]], c)
  {
    assert data[..j + 1] == data[..j] + [data[j]];
  }

  /** Every accepted character is '0' and its bit. */
  lemma {:induction false} Spells(data: seq<Cell>)
    requires AllAscii(data)
    ensures forall i :: 0 <= i < |data| ==> FromAscii(data)[i] + ASCII_ZERO == data[i]
  {
    forall i | 0 <= i < |data| ensures FromAscii(data)[i] + ASCII_ZERO == data[i] {
      assert data[i] in data;
    }
  }

  /** The ones among the bits are the characters '1', and the zeros the characters '0'. */
  lemma {:induction false} OnesSpelled(data: seq<Cell>)
    requires AllAscii(data)
    ensures Ones(FromAscii(data)) == Count(data, ASCII_ONE)
    ensures |data| - Ones(FromAscii(data)) == Count(data, ASCII_ZERO)
  {
    if data != [] {
      var n := |data| - 1;
      assert data[n] in data && data == data[..n] + [data[n]];
      OnesSpelled(data[..n]);
      assert FromAscii(data) == FromAscii(data[..n]) + [AsciiBit(data[n])];
      OnesAppend(FromAscii(data[..n]), [AsciiBit(data[n])]);
    }
  }

  predicate AllAscii(data: seq<Cell>)
  {
    forall c :: c in data ==> IsAsciiBit(c)
  }

  /** Collecting one more chunk either extends the unfinished block or completes it. */
  lemma {:induction false} CollectChunk(t: seq<Bit>, bits: seq<Bit>)
    requires |t| % CHUNK == 0 && |bits| == CHUNK
    ensures |t + bits| % CHUNK == 0
    ensures var r := Unfinished(t);
            if |r| + CHUNK < BLOCK_BITS
            then Unfinished(t + bits) == r + bits && Debias(t + bits) == Debias(t)
            else Unfinished(t + bits) == [] && Debias(t + bits) == Debias(t) + Extract(r + bits)
  {
    hide Extract;
    ChunkStep(|t|);
    var r, done := Unfinished(t), t[..|t| - |t| % BLOCK_BITS];
    assert t == done + r && t + bits == done + (r + bits);
    DebiasAppend(done, r);
    DebiasAppend(done, r + bits);
    assert Debias(t) == Debias(done);
    if |r| + CHUNK < BLOCK_BITS {
      assert Debias(r + bits) == [];
    } else {
      assert (r + bits)[..BLOCK_BITS] == r + bits && (r + bits)[BLOCK_BITS..] == [];
      assert Debias(r + bits) == Extract(r + bits) + [];
    }
  }

  lemma {:induction false} ChunkRoom(n: nat)
    ensures n % CHUNK == 0 ==> n % BLOCK_BITS + CHUNK <= BLOCK_BITS
  {
    var q, r := n / BLOCK_BITS, n % BLOCK_BITS;
    if n % CHUNK == 0 {
      var k := n / CHUNK - 4 * q;
      assert r == CHUNK * k;
      assert k < 4;
    }
  }

  lemma {:induction false} ChunkStep(n: nat)
    requires n % CHUNK == 0
    ensures (n + CHUNK) % CHUNK == 0
    ensures (n + CHUNK) % BLOCK_BITS == if n % BLOCK_BITS + CHUNK < BLOCK_BITS then n % BLOCK_BITS + CHUNK else 0
    ensures (n - n % BLOCK_BITS) % BLOCK_BITS == 0
  {
    ChunkRoom(n);
    var q, r := n / BLOCK_BITS, n % BLOCK_BITS;
    DivModUnique(n - r, BLOCK_BITS, q, 0);
    DivModUnique(n + CHUNK, CHUNK, n / CHUNK + 1, 0);
    if r + CHUNK < BLOCK_BITS {
      DivModUnique(n + CHUNK, BLOCK_BITS, q, r + CHUNK);
    } else {
      DivModUnique(n + CHUNK, BLOCK_BITS, q + 1, 0);
    }
  }

  /** The bits of the block that is not complete yet. */
  function Unfinished(t: seq<Bit>): (r: seq<Bit>)
    ensures |r| == |t| % BLOCK_BITS && |r| <= |t|
    ensures |t| % CHUNK == 0 ==> |r| + CHUNK <= BLOCK_BITS
  {
    ChunkRoom(|t|);
    t[|t| - |t| % BLOCK_BITS..]
  }

  lemma {:induction false} EmittedGroup(g: seq<Bit>)
    requires |g| == GROUP_BITS
    ensures Emitted(g) == MixGroup(g)
  {
    assert g[..GROUP_BITS] == g && g[GROUP_BITS..] == [];
  }

  /** The daemon from its start, over any number of passes. */
  method Gather(devices: nat, passes: seq<Pass>) returns (d: Daemon)
    requires AllWellFormed(passes, devices)
    ensures d.Valid() && (d.status.Running? <==> Survives(AllPolls(passes)))
    ensures d.out == Emitted(Debias(Taken(AllPolls(passes))))
    ensures d.status.Running? ==>
      var w, reported := Debias(Taken(AllPolls(passes))), Debias(MarkAfter([], [], passes));
      && d.numZeros + d.numOnes == |w| - |reported| && d.entCount == |d.out| - |Emitted(reported)|
      && |d.deviceZeros| == |d.deviceOnes| == devices
      && forall i :: 0 <= i < devices ==>
           && d.deviceOnes[i] == Ones(Delivered(Recent(passes), i))
           && d.deviceZeros[i] + d.deviceOnes[i] == CHUNK * Chunks(Recent(passes), i)
  {
    hide Daemon.Sound, Taken, Survives, AllPolls, Recent, Delivered, AnyAlarm, Debias, Emitted, Ones, Chunks, MarkAfter;
    hide DevicesCounted;
    d := new Daemon(devices);
    d.Run(passes);
    assert [] + Taken(AllPolls(passes)) == Taken(AllPolls(passes));
    if d.status.Running? {
      DevicesFromStart(d.deviceZeros, d.deviceOnes, d.deviceBits, passes, devices);
    }
  }

  lemma {:induction false} DevicesFromStart(zeros: seq<nat>, ones: seq<nat>, bits: seq<seq<Bit>>, passes: seq<Pass>,
                                            devices: nat)
    requires AllWellFormed(passes, devices) && Survives(AllPolls(passes)) && DevicesCounted(zeros, ones, bits)
    requires |bits| == devices && forall i :: 0 <= i < devices ==> bits[i] == [] + Delivered(Recent(passes), i)
    ensures |zeros| == |ones| == devices
    ensures forall i :: 0 <= i < devices ==>
              && ones[i] == Ones(Delivered(Recent(passes), i))
              && zeros[i] + ones[i] == CHUNK * Chunks(Recent(passes), i)
  {
    hide Survives, AllPolls, Recent, Delivered, Ones, Chunks;
    RecentSurvives(passes, devices);
    forall i | 0 <= i < devices
      ensures ones[i] == Ones(Delivered(Recent(passes), i))
      ensures zeros[i] + ones[i] == CHUNK * Chunks(Recent(passes), i)
    {
      DeliveredCount(Recent(passes), i, devices);
      assert bits[i] == Delivered(Recent(passes), i);
    }
  }

  lemma {:induction false} RecentSurvives(passes: seq<Pass>, devices: nat)
    requires AllWellFormed(passes, devices) && Survives(AllPolls(passes))
    ensures AllWellFormed(Recent(passes), devices) && Survives(AllPolls(Recent(passes)))
  {
    hide Survives, AllPolls;
    RecentMeans(passes);
    var r := Recent(passes);
    var front := passes[..|passes| - |r|];
    assert passes == front + r && forall p :: p in r ==> p in passes;
    AllPollsAppend(front, r);
    SurvivesAppend(AllPolls(front), AllPolls(r));
  }
}
