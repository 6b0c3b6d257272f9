/** Extended addresses in the printer-class loader: which words a record loads, and where. */
module HexBase {
  import opened Arithmetic
  import opened Flash
  import opened HexParser
  import opened BootGuard

  /** The words that were loaded, in order. */
  function Fills(ops: seq<FlashOp>): seq<FlashOp>
  {
    if ops == [] then []
    else Fills(ops[..|ops| - 1]) + if ops[|ops| - 1].FillOp? then [ops[|ops| - 1]] else []
  }

  lemma {:induction false} FillsNext(ops: seq<FlashOp>, op: FlashOp)
    ensures Fills(ops + [op]) == Fills(ops) + if op.FillOp? then [op] else []
  {
    assert (ops + [op])[..|ops|] == ops;
  }

  /** Addresses are counted in 32 bits. */
  function Address(base: nat, offset: nat): nat
  {
    (base + offset) % 0x1_0000_0000
  }

  lemma {:induction false} AddressIs(base: nat, offset: nat)
    ensures Address(base, offset) == Wrap32(base + offset)
  {
  }

  /** The words of data for address a on, up to the first at or above boot. */
  function WordFills(a: nat, bytes: seq<Octet>, boot: nat): seq<FlashOp>
    decreases |bytes|
  {
    if |bytes| < 2 || a >= boot then []
    else [FillOp(a, bytes[0], bytes[1])] + WordFills(Address(a, 2), bytes[2..], boot)
  }

  /** Below boot every word is loaded at its own address. */
  lemma {:induction false} WordFillsAt(a: nat, bytes: seq<Octet>, boot: nat, i: nat)
    requires a + |bytes| <= boot <= 0x1_0000_0000 && |bytes| % 2 == 0 && 2 * i < |bytes|
    ensures |WordFills(a, bytes, boot)| == |bytes| / 2
    ensures WordFills(a, bytes, boot)[i] == FillOp(a + 2 * i, bytes[2 * i], bytes[2 * i + 1])
    decreases |bytes|
  {
    if |bytes| > 2 {
      WordFillsAt(a + 2, bytes[2..], boot, if i > 0 then i - 1 else 0);
    }
  }

  // ---------------------------------------------------------------------------
  // One record

  /** Inside the data of a record, with so many bytes to come. */
  ghost predicate InData(s: State, kind: Octet, remaining: nat)
  {
    && Valid(s) && !s.readMsb && s.recordType == kind && s.dataRem == remaining
    && s.phase == (if remaining == 0 then Checksum else ReadData)
  }

  /** The data of a record has been read or skipped; these words have been loaded meanwhile. */
  ghost predicate DataOver(s: State, t: State, fills: seq<FlashOp>)
  {
    && Valid(t) && !t.readMsb && (t.phase.WaitLine? || t.phase.Checksum?) && t.boot == s.boot
    && Fills(t.trace) == Fills(s.trace) + fills
  }

  lemma {:induction false} DataSkipped(s: State, kind: Octet, bytes: seq<Octet>)
    requires InData(s, kind, |bytes|) && bytes != [] && s.addr >= s.boot
    ensures var t := Run(s, HexText(bytes));
            DataOver(s, t, []) && t.phase.WaitLine? && t.base == s.base && t.trace == s.trace
  {
    hide Run, HexByte, HexText, TakeWord, Fills;
    var b, more := bytes[0], bytes[1..];
    assert bytes == [b] + more;
    HexTextCons(b, more);
    RunByte(s, b, HexText(more));
    NoMark(more);
    WaitsOn(TakeByte(s.(data := b)), HexText(more));
  }

  lemma {:induction false} WordFilled(s: State)
    requires Valid(s) && s.recordType == RECORD_DATA
    ensures var t := TakeWord(s);
            && Fills(t.trace) == Fills(s.trace) + [FillOp(s.addr, s.prevData, s.data)]
            && t == s.(addr := Wrap32(s.addr + 2), flash := t.flash, trace := t.trace, dirty := t.dirty,
                       pageStart := t.pageStart)
  {
    hide Erase, Fill, Write, PageOf, Fills, Wrap32;
    var s1 := if s.dirty then s else ErasePage(s);
    var s2 := FillWord(s1);
    FillsNext(s.trace, EraseOp(s.pageStart));
    FillsNext(s1.trace, FillOp(s.addr, s.prevData, s.data));
    FillsNext(s2.trace, WriteOp(s2.pageStart));
  }

  /** The second byte of a data word. */
  lemma {:induction false} SecondFills(s: State, hi: Octet, remaining: nat)
    requires InData(s, RECORD_DATA, remaining + 1) && s.addr < s.boot && remaining % 2 == 0
    ensures var t := TakeByte(s.(data := hi));
            && InData(t, RECORD_DATA, remaining) && t.addr == Wrap32(s.addr + 2) && t.boot == s.boot && t.base == s.base
            && Fills(t.trace) == Fills(s.trace) + [FillOp(s.addr, s.prevData, hi)]
  {
    hide TakeByte, TakeWord, Fills, Wrap32, ValidFlash;
    SecondOfWord(s, hi, remaining);
    WordFilled(s.(data := hi, checksum := (s.checksum + hi) % 256, dataRem := remaining));
  }

  /** The data of a record; an odd record starts with the second byte of a word. */
  lemma {:induction false} DataFills(s: State, bytes: seq<Octet>)
    requires InData(s, RECORD_DATA, |bytes|) && |bytes| < 256
    ensures var t := Run(s, HexText(bytes));
            DataOver(s, t, WordFills(s.addr, Paired(s.prevData, bytes), s.boot)) && t.base == s.base
    decreases |bytes|
  {
    hide InData, DataOver, Run, HexByte, HexText, TakeByte, Fills, WordFills, Paired;
    if bytes == [] {
      NothingFills(s);
    } else if s.addr >= s.boot {
      DataSkipped(s, RECORD_DATA, bytes);
      WordFillsNone(s.addr, Paired(s.prevData, bytes), s.boot);
    } else if |bytes| % 2 == 1 {
      OddFills(s, bytes);
    } else {
      EvenFills(s, bytes);
    }
  }

  /** The words that a record's data makes, together with the byte left over if it is odd. */
  function Paired(prev: Octet, bytes: seq<Octet>): seq<Octet>
  {
    if |bytes| % 2 == 1 then [prev] + bytes else bytes
  }

  lemma {:induction false} NothingFills(s: State)
    requires InData(s, RECORD_DATA, 0)
    ensures DataOver(s, Run(s, HexText([])), WordFills(s.addr, Paired(s.prevData, []), s.boot))
    ensures Run(s, HexText([])) == s
  {
    hide Fills;
    HexTextNone();
    RunNone(s);
  }

  lemma {:induction false} WordFillsNone(a: nat, bytes: seq<Octet>, boot: nat)
    requires a >= boot
    ensures WordFills(a, bytes, boot) == []
  {
  }

  lemma {:induction false} OddFills(s: State, bytes: seq<Octet>)
    requires InData(s, RECORD_DATA, |bytes|) && |bytes| < 256 && |bytes| % 2 == 1 && s.addr < s.boot
    ensures var t := Run(s, HexText(bytes));
            DataOver(s, t, WordFills(s.addr, Paired(s.prevData, bytes), s.boot)) && t.base == s.base
    decreases |bytes|, 0
  {
    hide Run, HexByte, HexText, TakeByte, Fills, Wrap32, Address;
    var b, more := bytes[0], bytes[1..];
    assert bytes == [b] + more;
    HexTextCons(b, more);
    RunByte(s, b, HexText(more));
    SecondFills(s, b, |more|);
    AddressIs(s.addr, 2);
    DataFills(TakeByte(s.(data := b)), more);
    assert ([s.prevData] + bytes)[2..] == more;
    var first, rest := [FillOp(s.addr, s.prevData, b)], WordFills(Address(s.addr, 2), more, s.boot);
    assert Fills(s.trace) + first + rest == Fills(s.trace) + (first + rest);
  }

  lemma {:induction false} EvenFills(s: State, bytes: seq<Octet>)
    requires InData(s, RECORD_DATA, |bytes|) && 0 < |bytes| < 256 && |bytes| % 2 == 0 && s.addr < s.boot
    ensures var t := Run(s, HexText(bytes));
            DataOver(s, t, WordFills(s.addr, Paired(s.prevData, bytes), s.boot)) && t.base == s.base
    decreases |bytes|, 0
  {
    hide Run, HexByte, HexText, TakeByte, Fills, WordFills, Wrap32;
    var b, more := bytes[0], bytes[1..];
    assert bytes == [b] + more;
    HexTextCons(b, more);
    RunByte(s, b, HexText(more));
    FirstOfWord(s, b, |more| - 1);
    OddFills(TakeByte(s.(data := b)), more);
  }

  /** The checksum byte loads no word, whether the record was read or skipped. */
  lemma {:induction false} ChecksumFills(s: State, ck: Octet)
    requires Valid(s) && !s.readMsb && (s.phase.WaitLine? || s.phase.Checksum?)
    ensures var t := Run(s, HexByte(ck)); Fills(t.trace) == Fills(s.trace) && t.base == s.base && t.boot == s.boot
  {
    hide Run, HexByte, Fills, Write, PageOf, TakeData;
    if s.phase.WaitLine? {
      NoMark([ck]);
      HexTextCons(ck, []);
      HexTextNone();
      assert [ck] == [ck] + [] && HexByte(ck) + [] == HexByte(ck);
      WaitsOn(s, HexByte(ck));
    } else {
      HexByteParsed(s, ck);
      FillsNext(s.trace, WriteOp(s.pageStart));
    }
  }

  /** The state behind the header of a record, from any base. */
  lemma {:induction false} HeaderData(s: State, o: nat, kind: Octet, bytes: seq<Octet>) returns (s1: State, ck: Octet)
    requires Valid(s) && o < 0x1_0000 && |bytes| < 256
    ensures InData(s1, kind, |bytes|) && s1.addr == Address(s.base, o)
    ensures s1.boot == s.boot && s1.base == s.base && s1.trace == s.trace && s1.prevData == s.prevData
    ensures Run(s, Record(o, kind, bytes)) == Run(Run(s1, HexText(bytes)), HexByte(ck))
  {
    hide Run, Record, HexByte, HexText, Sum, Wrap32;
    AddressIs(s.base, o);
    ck := RecordParsed(s, o, kind, bytes, []);
    s1 := AfterHeader(s, |bytes|, o / 256, o % 256, kind).(addr := Wrap32(s.base + o));
    assert Record(o, kind, bytes) + [] == Record(o, kind, bytes) && HexByte(ck) + [] == HexByte(ck);
    RunAppend(s1, HexText(bytes), HexByte(ck));
  }

  /**
   A data record, from any state and any base: its words are loaded at base + offset and the addresses behind it,
   up to the first at or above boot. An odd record loads the byte left over first.
   */
  lemma {:induction false} RecordFills(s: State, o: nat, bytes: seq<Octet>)
    requires Valid(s) && o < 0x1_0000 && |bytes| < 256
    ensures var t := Run(s, Record(o, RECORD_DATA, bytes));
            && t.base == s.base && t.boot == s.boot
            && Fills(t.trace) ==
               Fills(s.trace) + WordFills(Address(s.base, o), Paired(s.prevData, bytes), s.boot)
  {
    hide Run, Record, HexByte, HexText, WordFills, Fills, Address, Paired;
    var s1, ck := HeaderData(s, o, RECORD_DATA, bytes);
    DataFills(s1, bytes);
    ChecksumFills(Run(s1, HexText(bytes)), ck);
  }

  // ---------------------------------------------------------------------------
  // Extended addresses

  /** The base that the two data bytes of an extended address record stand for; the first is the low one. */
  function ExtendedBase(kind: Octet, b0: Octet, b1: Octet): nat
  {
    Word(b1, b0) * if kind == 0x02 then 0x10 else 0x1_0000
  }

  lemma {:induction false} BaseWord(s: State, kind: Octet, b0: Octet, b1: Octet)
    requires InData(s, kind, 2) && s.addr < s.boot && (kind == 0x02 || kind == 0x04)
    ensures Run(s, HexText([b0, b1])) == TakeByte(TakeByte(s.(data := b0)).(data := b1))
    ensures var t := Run(s, HexText([b0, b1]));
            DataOver(s, t, []) && t.base == ExtendedBase(kind, b0, b1)
  {
    hide Run, HexByte, HexText, TakeByte, Fills;
    HexTextTwo(b0, b1);
    FirstOfWord(s, b0, 0);
    var s1 := TakeByte(s.(data := b0));
    RunByte(s, b0, HexByte(b1));
    SecondOfWord(s1, b1, 0);
    HexByteParsed(s1, b1);
  }

  /**
   An extended address record sets the base, if base + offset is below boot; otherwise it is skipped like any
   other record.
   */
  lemma {:induction false} BaseRecord(s: State, o: nat, kind: Octet, b0: Octet, b1: Octet)
    requires Valid(s) && o < 0x1_0000 && (kind == 0x02 || kind == 0x04)
    ensures var t := Run(s, Record(o, kind, [b0, b1]));
            && t.base == (if Address(s.base, o) < s.boot then ExtendedBase(kind, b0, b1) else s.base)
            && t.boot == s.boot && Fills(t.trace) == Fills(s.trace)
  {
    hide Run, Record, HexByte, HexText, Fills, Address, TakeByte;
    var s1, ck := HeaderData(s, o, kind, [b0, b1]);
    if s1.addr < s.boot {
      BaseWord(s1, kind, b0, b1);
    } else {
      DataSkipped(s1, kind, [b0, b1]);
    }
    ChecksumFills(Run(s1, HexText([b0, b1])), ck);
  }

  /** The base that the format defines: the high byte comes first. */
  function MeantBase(kind: Octet, b0: Octet, b1: Octet): nat
  {
    Word(b0, b1) * if kind == 0x02 then 0x10 else 0x1_0000
  }

  /** The loader takes the first byte as the low one, so it sets the base meant exactly if the two are the same. */
  lemma {:induction false} BaseMeantIff(s: State, o: nat, kind: Octet, b0: Octet, b1: Octet)
    requires Valid(s) && o < 0x1_0000 && (kind == 0x02 || kind == 0x04)
    requires Address(s.base, o) < s.boot
    ensures Run(s, Record(o, kind, [b0, b1])).base == MeantBase(kind, b0, b1) <==> b0 == b1
  {
    hide Run, Record, Address;
    BaseRecord(s, o, kind, b0, b1);
  }

  // ---------------------------------------------------------------------------
  // Whole files

  /** A record as a file contains it: data, an extended address, or the end. */
  datatype HexRecord =
    | Data(offset: nat, bytes: seq<Octet>)
    | Extended(offset: nat, kind: Octet, b0: Octet, b1: Octet)
    | End

  predicate IsHexRecord(r: HexRecord)
  {
    match r
    case Data(offset, bytes) => offset < 0x1_0000 && |bytes| < 256 && |bytes| % 2 == 0
    case Extended(offset, kind, _, _) => offset < 0x1_0000 && (kind == 0x02 || kind == 0x04)
    case End => true
  }

  function Printed(r: HexRecord): string
    requires IsHexRecord(r)
  {
    match r
    case Data(offset, bytes) => Record(offset, RECORD_DATA, bytes)
    case Extended(offset, kind, b0, b1) => Record(offset, kind, [b0, b1])
    case End => EndRecord()
  }

  function PrintedAll(rs: seq<HexRecord>): string
    requires forall r :: r in rs ==> IsHexRecord(r)
    decreases |rs|
  {
    if rs == [] then [] else assert rs[0] in rs; Printed(rs[0]) + PrintedAll(rs[1..])
  }

  function BaseAfter(base: nat, r: HexRecord, boot: nat): nat
  {
    if r.Extended? && Address(base, r.offset) < boot then ExtendedBase(r.kind, r.b0, r.b1) else base
  }

  /** All words that a file loads, read off its records. */
  function FileFills(base: nat, rs: seq<HexRecord>, boot: nat): seq<FlashOp>
    decreases |rs|
  {
    if rs == [] then []
    else
      (if rs[0].Data? then WordFills(Address(base, rs[0].offset), rs[0].bytes, boot) else [])
      + FileFills(BaseAfter(base, rs[0], boot), rs[1..], boot)
  }

  lemma {:induction false} OneRecord(s: State, r: HexRecord)
    requires Valid(s) && IsHexRecord(r)
    ensures var t := Run(s, Printed(r));
            && t.base == BaseAfter(s.base, r, s.boot) && t.boot == s.boot
            && Fills(t.trace) ==
               Fills(s.trace) + if r.Data? then WordFills(Address(s.base, r.offset), r.bytes, s.boot) else []
  {
    hide Run, Record, Fills, WordFills, Address, ExtendedBase, HexByte, HexText;
    match r {
      case Data(offset, bytes) => RecordFills(s, offset, bytes);
      case Extended(offset, kind, b0, b1) => BaseRecord(s, offset, kind, b0, b1);
      case End =>
        var s1, ck := HeaderData(s, 0, RECORD_END, []);
        HexTextNone();
        RunNone(s1);
        ChecksumFills(s1, ck);
    }
  }

  /** From any state, the words that a file loads are the ones read off its records. */
  lemma {:induction false} FileFillsAll(s: State, rs: seq<HexRecord>)
    requires Valid(s) && forall r :: r in rs ==> IsHexRecord(r)
    ensures Fills(Run(s, PrintedAll(rs)).trace) == Fills(s.trace) + FileFills(s.base, rs, s.boot)
    decreases |rs|
  {
    hide Run, Printed, Fills, WordFills, Address, BaseAfter, IsHexRecord;
    if rs == [] {
      RunNone(s);
    } else {
      assert rs[0] in rs;
      OneRecord(s, rs[0]);
      RunAppend(s, Printed(rs[0]), PrintedAll(rs[1..]));
      var first := if rs[0].Data? then WordFills(Address(s.base, rs[0].offset), rs[0].bytes, s.boot) else [];
      var rest := FileFills(BaseAfter(s.base, rs[0], s.boot), rs[1..], s.boot);
      FileFillsAll(Run(s, Printed(rs[0])), rs[1..]);
      assert Fills(s.trace) + first + rest == Fills(s.trace) + (first + rest);
    }
  }

  // ---------------------------------------------------------------------------
  // A base at or above boot

  /** Every address that a line can name is at or above boot. */
  ghost predicate Stuck(s: State)
  {
    && Valid(s) && s.boot <= s.base && s.base + 0xFFFF < 0x1_0000_0000
    && match s.phase
       case WaitLine => true
       case ByteCount => s.addr == s.base
       case AddressHigh => s.addr == s.base
       case AddressLow => s.base <= s.addr <= s.base + 0xFF00
       case RecordType => s.base <= s.addr
       case ReadData => s.base <= s.addr
       case Checksum => true
  }

  /** Nothing has been done to the flash since, but for writing the page that was in progress. */
  ghost predicate OnlyFlushed(s: State, t: State)
  {
    && t.base == s.base && t.boot == s.boot
    && ((t.trace == s.trace && t.pageStart == s.pageStart && (t.dirty ==> s.dirty))
        || (t.trace == s.trace + [WriteOp(s.pageStart)] && s.dirty && !t.dirty))
  }

  lemma {:induction false} StuckByte(s: State)
    requires Stuck(s)
    ensures Stuck(TakeByte(s)) && OnlyFlushed(s, TakeByte(s))
  {
    hide TakeData, TakeChecksum, ValidFlash;
    if s.phase.ReadData? {
      StuckData(s.(checksum := (s.checksum + s.data) % 256));
    } else if s.phase.Checksum? {
      StuckChecksum(s);
    }
  }

  lemma {:induction false} StuckData(s: State)
    requires Stuck(s) && s.phase.ReadData?
    ensures Stuck(TakeData(s)) && OnlyFlushed(s, TakeData(s))
  {
    hide TakeWord, ValidFlash;
  }

  lemma {:induction false} StuckChecksum(s: State)
    requires Stuck(s) && s.phase.Checksum?
    ensures Stuck(TakeChecksum(s)) && OnlyFlushed(s, TakeChecksum(s))
  {
    hide Write, PageOf, ValidFlash;
  }

  lemma {:induction false} StuckStep(s: State, c: char)
    requires Stuck(s)
    ensures Stuck(Step(s, c)) && OnlyFlushed(s, Step(s, c))
  {
    hide TakeByte, ValidFlash;
    var v := HexToDecimal(c);
    if v >= 0 && !s.phase.WaitLine? && c != ':' {
      StuckByte(s.(data := (s.data * 16 + v) % 256, readMsb := !s.readMsb));
    }
  }

  lemma {:induction false} FlushedOnce(s: State, t: State, u: State)
    requires OnlyFlushed(s, t) && OnlyFlushed(t, u)
    ensures OnlyFlushed(s, u)
  {
  }

  /** Once the base is at or above boot, no stream moves it again or loads a word. */
  lemma {:induction false} StuckAbove(s: State, text: string)
    requires Stuck(s)
    ensures OnlyFlushed(s, Run(s, text))
    decreases |text|
  {
    hide Stuck, OnlyFlushed, Step, ValidFlash;
    StuckIsValid(s);
    if text == [] {
      FlushedNever(s);
    } else {
      StuckStep(s, text[0]);
      StuckAbove(Step(s, text[0]), text[1..]);
      FlushedOnce(s, Step(s, text[0]), Run(s, text));
    }
  }

  lemma {:induction false} StuckIsValid(s: State)
    requires Stuck(s)
    ensures Valid(s)
  {
  }

  lemma {:induction false} FlushedNever(s: State)
    ensures OnlyFlushed(s, s)
  {
  }
}
