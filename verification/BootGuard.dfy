/** What the printer-class loader does to its own section of the flash. */
module BootGuard {
  import opened Arithmetic
  import opened Flash
  import opened HexParser
  import opened HexTrace

  /** No page at or above boot is erased or written. */
  ghost predicate Spares(ops: seq<FlashOp>, boot: nat)
  {
    forall op :: op in ops && !op.FillOp? ==> op.page < boot
  }

  lemma {:induction false} ApplyBelow(f: Flash, op: FlashOp, boot: nat)
    requires ValidFlash(f) && boot % PageSize(f) == 0 && (op.FillOp? || op.page < boot)
    ensures SameFrom(f, Apply(f, op), boot)
  {
    hide Programmed, Padded;
    if !op.FillOp? {
      var size := PageSize(f);
      var pg := PageOf(op.page, size);
      DivModUnique(pg, size, op.page / size, 0);
      PageBelow(pg, boot, size);
    }
  }

  /** Operations that spare the boot section leave it as it was. */
  lemma {:induction false} SparedIsSame(f: Flash, ops: seq<FlashOp>, boot: nat)
    requires ValidFlash(f) && boot % PageSize(f) == 0 && Spares(ops, boot)
    ensures SameFrom(f, Replay(f, ops), boot)
  {
    hide Apply;
    if ops != [] {
      var front, op := ops[..|ops| - 1], ops[|ops| - 1];
      assert op in ops && forall x :: x in front ==> x in ops;
      SparedIsSame(f, front, boot);
      ApplyBelow(Replay(f, front), op, boot);
    }
  }

  // ---------------------------------------------------------------------------
  // Any stream

  /** The page in progress is below boot, before every character of the stream. */
  ghost predicate StaysBelow(s: State, text: string)
    requires Valid(s)
    decreases |text|
  {
    text != [] ==> s.pageStart < s.boot && StaysBelow(Step(s, text[0]), text[1..])
  }

  lemma {:induction false} SparesMore(ops: seq<FlashOp>, op: FlashOp, boot: nat)
    ensures Spares(ops + [op], boot) <==> Spares(ops, boot) && (op.FillOp? || op.page < boot)
  {
    assert forall x :: x in ops + [op] <==> x in ops || x == op;
  }

  lemma {:induction false} FlushSpares(s: State)
    requires Valid(s) && s.pageStart < s.boot && Spares(s.trace, s.boot)
    ensures Spares(FlushIfRequired(s).trace, s.boot)
  {
    hide Spares, Write, PageOf;
    SparesMore(s.trace, WriteOp(s.pageStart), s.boot);
  }

  lemma {:induction false} WordSpares(s: State)
    requires Valid(s) && s.pageStart < s.boot && Spares(s.trace, s.boot)
    ensures Spares(TakeWord(s).trace, s.boot)
  {
    hide Spares, Erase, Fill, FlushIfRequired;
    var s1 := if s.dirty then s else ErasePage(s);
    SparesMore(s.trace, EraseOp(s.pageStart), s.boot);
    SparesMore(s1.trace, FillOp(s.addr, s.prevData, s.data), s.boot);
    FlushSpares(FillWord(s1));
  }

  lemma {:induction false} ByteSpares(s: State)
    requires Valid(s) && s.pageStart < s.boot && Spares(s.trace, s.boot)
    ensures Spares(TakeByte(s).trace, s.boot) && TakeByte(s).boot == s.boot
  {
    hide Spares, TakeWord, FlushIfRequired;
    FlushSpares(s);
    FlushKeepsBoot(s);
    var t := s.(checksum := (s.checksum + s.data) % 256, dataRem := (s.dataRem + 255) % 256);
    WordSpares(t);
    WordKeeps(t);
  }

  lemma {:induction false} FlushKeepsBoot(s: State)
    requires Valid(s)
    ensures FlushIfRequired(s).boot == s.boot
  {
  }

  lemma {:induction false} StepSpares(s: State, c: char)
    requires Valid(s) && s.pageStart < s.boot && Spares(s.trace, s.boot)
    ensures Spares(Step(s, c).trace, s.boot) && Step(s, c).boot == s.boot
  {
    hide Spares, TakeByte;
    var v := HexToDecimal(c);
    if v >= 0 {
      ByteSpares(s.(data := (s.data * 16 + v) % 256, readMsb := !s.readMsb));
    }
  }

  /** For every stream: as long as the page in progress stays below boot, the boot section is spared. */
  lemma {:induction false} StreamSpares(s: State, text: string)
    requires Valid(s) && Spares(s.trace, s.boot) && StaysBelow(s, text)
    ensures Spares(Run(s, text).trace, s.boot) && Run(s, text).boot == s.boot
    decreases |text|
  {
    hide Spares, Step;
    if text != [] {
      StepSpares(s, text[0]);
      StreamSpares(Step(s, text[0]), text[1..]);
    }
  }

  /** A run that spares the boot section leaves it as it was in the flash from which the trace started. */
  lemma {:induction false} SparedRun(s: State, f: Flash, text: string)
    requires Valid(s) && Explained(s, f) && s.boot % PageSize(s.flash) == 0 && Spares(Run(s, text).trace, s.boot)
    ensures SameFrom(f, Run(s, text).flash, s.boot)
  {
    hide Run, Replay, SameFrom;
    RunExplained(s, text, f);
    SparedIsSame(f, Run(s, text).trace, s.boot);
  }

  /** So for every stream, from any state, the boot section is what it was while the page in progress stays below it. */
  lemma {:induction false} StreamKeepsBoot(s: State, f: Flash, text: string)
    requires Valid(s) && Explained(s, f) && s.boot % PageSize(s.flash) == 0
    requires Spares(s.trace, s.boot) && StaysBelow(s, text)
    ensures SameFrom(f, Run(s, text).flash, s.boot)
  {
    hide Run, StaysBelow, Explained, Spares, SameFrom;
    StreamSpares(s, text);
    SparedRun(s, f, text);
  }

  // ---------------------------------------------------------------------------
  // Files of data records in any order

  /** A data record for any address. */
  datatype DataRecord = DataRecord(addr: nat, bytes: seq<Octet>)

  predicate IsRecord(r: DataRecord)
  {
    r.addr < 0x1_0000 && 0 < |r.bytes| < 256
  }

  predicate AreRecords(rs: seq<DataRecord>)
  {
    forall r :: r in rs ==> IsRecord(r)
  }

  /** The address behind the record's last word; an odd record has half a word more than its data. */
  function End(r: DataRecord): nat
  {
    r.addr + |r.bytes| + |r.bytes| % 2
  }

  /** The record starts below boot, and its last word ends there or above. */
  predicate Crosses(r: DataRecord, boot: nat)
  {
    r.addr < boot <= End(r)
  }

  function RecordsText(rs: seq<DataRecord>): string
    requires AreRecords(rs)
    decreases |rs|
  {
    if rs == [] then []
    else
      assert rs[0] in rs;
      Record(rs[0].addr, RECORD_DATA, rs[0].bytes) + RecordsText(rs[1..])
  }

  /** Between records: the page in progress is a page below boot, or boot itself with nothing loaded. */
  ghost predicate Steady(s: State)
  {
    && Valid(s) && s.base == 0 && !s.readMsb
    && s.boot % PageSize(s.flash) == 0 && s.pageStart % PageSize(s.flash) == 0
    && s.pageStart <= s.boot && (s.pageStart == s.boot ==> !s.dirty)
  }

  /** The page in progress is the one of the next address, if anything is loaded. */
  ghost predicate Settled(s: State)
  {
    Valid(s) && (s.dirty ==> s.pageStart == PageOf(s.addr, PageSize(s.flash)))
  }

  /** What every record keeps, as long as the boot section has been spared. */
  ghost predicate Guarded(s: State, boot: nat)
  {
    Steady(s) && s.boot == boot && Spares(s.trace, boot)
  }

  lemma {:induction false} PageUpToBoot(a: nat, boot: nat, size: nat)
    requires size >= 2 && boot % size == 0 && a <= boot + 1
    ensures PageOf(a, size) % size == 0 && PageOf(a, size) <= boot && (PageOf(a, size) == boot <==> a >= boot)
  {
    if a >= boot {
      PageOfOffset(boot, a - boot, size);
    } else {
      DivModUnique(PageOf(a, size), size, a / size, 0);
    }
  }

  /** A data word, while the page in progress is below boot: it moves to boot exactly if the word reaches boot. */
  lemma {:induction false} WordGuarded(s: State)
    requires Steady(s) && s.pageStart < s.boot && s.recordType == RECORD_DATA && s.addr < s.boot
    requires s.addr < 0x1_0100 && Spares(s.trace, s.boot)
    ensures var t := TakeWord(s);
            && Guarded(t, s.boot) && Settled(t) && (t.pageStart == s.boot <==> s.addr + 2 >= s.boot)
            && t == s.(flash := t.flash, trace := t.trace, addr := s.addr + 2, dirty := t.dirty,
                       pageStart := t.pageStart)
  {
    hide Spares, Erase, Fill, Write, PageOf;
    WordSpares(s);
    PageUpToBoot(s.addr + 2, s.boot, PageSize(s.flash));
  }

  /** A data word, when the page in progress is boot: the boot section is erased. */
  lemma {:induction false} WordErasesBoot(s: State)
    requires Steady(s) && s.pageStart == s.boot && s.recordType == RECORD_DATA
    ensures !Spares(TakeWord(s).trace, s.boot)
  {
    hide Erase, Fill, Write, PageOf;
    var op := EraseOp(s.pageStart);
    assert op in s.trace + [op];
    assert op in FillWord(ErasePage(s)).trace;
    assert op in TakeWord(s).trace;
  }

  /** Where the parser is inside a data record does not matter for being steady. */
  lemma {:induction false} SteadyAlso(s: State, t: State)
    requires Steady(s)
    requires t == s.(phase := t.phase, prevData := t.prevData, data := t.data, recordType := t.recordType,
                     dataRem := t.dataRem, checksum := t.checksum, addr := t.addr)
    ensures Steady(t)
  {
  }

  lemma {:induction false} SteadyValid(s: State)
    requires Steady(s)
    ensures Valid(s) && !s.readMsb && s.base == 0 && s.pageStart <= s.boot
  {
  }

  /** Nothing happens until the next start mark once the parser waits for one. */
  lemma {:induction false} WaitsOn(s: State, text: string)
    requires Valid(s) && s.phase.WaitLine? && !s.readMsb && ':' !in text
    ensures var t := Run(s, text); t == s.(checksum := t.checksum, addr := t.addr)
    decreases |text|
  {
    if text != [] {
      assert text[0] in text && text[0] != ':';
      WaitsOn(Step(s, text[0]), text[1..]);
    }
  }

  lemma {:induction false} NoMark(bytes: seq<Octet>)
    ensures ':' !in HexText(bytes)
  {
    if bytes != [] {
      NoMark(bytes[1..]);
      assert HexToDecimal(':') == -1;
    }
  }

  /** The next data byte, when the address has reached boot: the rest of the record is skipped. */
  lemma {:induction false} Skipped(s: State, bytes: seq<Octet>, text: string)
    requires Steady(s) && s.phase.ReadData? && s.addr >= s.boot && bytes != [] && ':' !in text
    ensures var t := Run(s, HexText(bytes) + text);
            && Steady(t) && t.phase.WaitLine? && t.trace == s.trace && t.pageStart == s.pageStart && t.boot == s.boot
            && !t.dirty
  {
    hide Run, HexByte, HexText, TakeByte;
    var b, more := bytes[0], bytes[1..];
    assert bytes == [b] + more;
    HexTextCons(b, more);
    assert HexText(bytes) + text == HexByte(b) + (HexText(more) + text);
    RunByte(s, b, HexText(more) + text);
    SkipStarts(s.(data := b));
    NoMark(more);
    WaitsOn(TakeByte(s.(data := b)), HexText(more) + text);
  }

  lemma {:induction false} SkipStarts(s: State)
    requires Steady(s) && s.phase.ReadData? && s.addr >= s.boot
    ensures var t := TakeByte(s);
            && t.phase.WaitLine? && Valid(t)
            && t == s.(phase := WaitLine, checksum := t.checksum, dataRem := t.dataRem, dirty := false)
  {
    hide TakeWord, TakeChecksum;
  }

  /** A word whose second byte has arrived. */
  lemma {:induction false} WordArrives(s: State, hi: Octet, remaining: nat)
    requires Guarded(s, s.boot) && s.pageStart < s.boot && remaining % 2 == 0
    requires Reading(s, s.addr, s.checksum, remaining + 1) && s.addr < s.boot && s.addr < 0x1_0100
    ensures var t := TakeByte(s.(data := hi));
            && Guarded(t, s.boot) && Settled(t) && (t.pageStart == s.boot <==> s.addr + 2 >= s.boot)
            && Reading(t, s.addr + 2, (s.checksum + hi) % 256, remaining)
  {
    hide TakeByte, TakeWord, Steady, ValidFlash, Spares, PageOf;
    SteadyValid(s);
    SecondOfWord(s, hi, remaining);
    var s2 := s.(data := hi, checksum := (s.checksum + hi) % 256, dataRem := remaining);
    SteadyAlso(s, s2);
    WordGuarded(s2);
    SteadyAlso(TakeWord(s2), TakeByte(s.(data := hi)));
  }

  /** After the data of a record: either all of it was taken, or the parser skips the rest of the line. */
  ghost predicate DataDone(t: State, boot: nat, end: nat, checksum: Octet)
  {
    && Guarded(t, boot) && (t.pageStart == boot <==> end >= boot)
    && (t.phase.WaitLine? || (Settled(t) && Reading(t, end, checksum, 0)))
  }

  /** The data of a record from the second byte of a word on. */
  lemma {:induction false} RestGuarded(s: State, bytes: seq<Octet>)
    requires Guarded(s, s.boot) && s.pageStart < s.boot && |bytes| % 2 == 1 && |bytes| < 256
    requires Reading(s, s.addr, s.checksum, |bytes|) && s.addr < s.boot && s.addr + |bytes| + 1 < 0x1_0100
    ensures Valid(s)
    ensures DataDone(Run(s, HexText(bytes)), s.boot, s.addr + |bytes| + 1, (s.checksum + Sum(bytes)) % 256)
    decreases |bytes|, 0
  {
    hide Steady, Settled, TakeByte, HexByte, HexText, Run, Sum, ValidFlash, Spares;
    SteadyValid(s);
    var b, more := bytes[0], bytes[1..];
    FirstByte(s, bytes);
    WordArrives(s, b, |more|);
    MoreGuarded(s.boot, TakeByte(s.(data := b)), more);
  }

  /** The data of a record from the first byte of a word on. */
  lemma {:induction false} WordsGuarded(s: State, bytes: seq<Octet>)
    requires Guarded(s, s.boot) && s.pageStart < s.boot && |bytes| % 2 == 0 && 0 < |bytes| < 256
    requires Reading(s, s.addr, s.checksum, |bytes|) && s.addr < s.boot && s.addr + |bytes| < 0x1_0100
    ensures Valid(s)
    ensures DataDone(Run(s, HexText(bytes)), s.boot, s.addr + |bytes|, (s.checksum + Sum(bytes)) % 256)
    decreases |bytes|, 0
  {
    hide Steady, Settled, TakeByte, HexByte, HexText, Run, Sum, ValidFlash, Spares;
    SteadyValid(s);
    var b, more := bytes[0], bytes[1..];
    FirstByte(s, bytes);
    FirstOfWord(s, b, |more| - 1);
    SteadyAlso(s, TakeByte(s.(data := b)));
    RestGuarded(TakeByte(s.(data := b)), more);
  }

  /** The first of several data bytes, its part of the text and of the sum. */
  lemma {:induction false} FirstByte(s: State, bytes: seq<Octet>)
    requires bytes != [] && Valid(s) && !s.phase.WaitLine? && !s.readMsb
    ensures Run(s, HexText(bytes)) == Run(TakeByte(s.(data := bytes[0])), HexText(bytes[1..]))
    ensures ((s.checksum + bytes[0]) % 256 + Sum(bytes[1..])) % 256 == (s.checksum + Sum(bytes)) % 256
  {
    hide TakeByte, HexByte, HexText, Run, Sum, Valid;
    var b, more := bytes[0], bytes[1..];
    assert bytes == [b] + more;
    HexTextCons(b, more);
    RunByte(s, b, HexText(more));
    SumCons(b, more);
    AddMod(s.checksum, b, Sum(more));
  }

  /** What follows the first word of a record. */
  lemma {:induction false} MoreGuarded(boot: nat, s: State, more: seq<Octet>)
    requires Guarded(s, boot) && Settled(s) && |more| % 2 == 0 && |more| < 256 && s.addr + |more| < 0x1_0100
    requires Reading(s, s.addr, s.checksum, |more|) && (s.pageStart == boot <==> s.addr >= boot)
    ensures Valid(s)
    ensures DataDone(Run(s, HexText(more)), boot, s.addr + |more|, (s.checksum + Sum(more)) % 256)
    decreases |more|, 1
  {
    hide Steady, Settled, TakeByte, HexByte, HexText, Run, Sum, ValidFlash, Spares;
    SteadyValid(s);
    if more == [] {
      HexTextNone();
      RunNone(s);
    } else if s.addr >= boot {
      Skipped(s, more, []);
      assert HexText(more) + [] == HexText(more);
    } else {
      WordsGuarded(s, more);
    }
  }

  /** The data of any record. */
  lemma {:induction false} DataGuarded(s: State, bytes: seq<Octet>)
    requires Guarded(s, s.boot) && s.pageStart < s.boot && 0 < |bytes| < 256
    requires Reading(s, s.addr, s.checksum, |bytes|) && s.addr < s.boot && s.addr < 0x1_0000
    ensures Valid(s)
    ensures DataDone(Run(s, HexText(bytes)), s.boot, s.addr + |bytes| + |bytes| % 2, (s.checksum + Sum(bytes)) % 256)
  {
    hide Steady, Settled, TakeByte, HexByte, HexText, Run, Sum, ValidFlash, Spares;
    SteadyValid(s);
    if |bytes| % 2 == 0 {
      WordsGuarded(s, bytes);
    } else {
      RestGuarded(s, bytes);
    }
  }

  /** The checksum of a settled record does nothing. */
  lemma {:induction false} ChecksumGuarded(s: State, a: nat, checksum: Octet, ck: Octet)
    requires Steady(s) && Settled(s) && Reading(s, a, checksum, 0) && (checksum + ck) % 256 == 0
    ensures Valid(s) && Run(s, HexByte(ck)) == s.(data := ck)
  {
    hide Run, HexByte, TakeData, Write, PageOf;
    HexByteParsed(s, ck);
  }

  /** The checksum, whether the record was taken or skipped. */
  lemma {:induction false} RecordDone(s: State, boot: nat, end: nat, checksum: Octet, ck: Octet)
    requires DataDone(s, boot, end, checksum) && (checksum + ck) % 256 == 0
    ensures Valid(s)
    ensures var t := Run(s, HexByte(ck)); Guarded(t, boot) && t.pageStart == s.pageStart
  {
    hide Run, HexByte, Steady, Settled, Spares;
    SteadyValid(s);
    if s.phase.WaitLine? {
      NoMark([ck]);
      HexTextCons(ck, []);
      HexTextNone();
      assert [ck] == [ck] + [] && HexByte(ck) + [] == HexByte(ck);
      WaitsOn(s, HexByte(ck));
    } else {
      ChecksumGuarded(s, end, checksum, ck);
    }
    SteadyAlso(s, Run(s, HexByte(ck)));
  }

  /** The state behind the header of a data record. */
  lemma {:induction false} HeaderGuarded(s: State, a: nat, len: Octet)
    requires Steady(s) && a < 0x1_0000 && len > 0
    ensures var s1 := AfterHeader(s, len, a / 256, a % 256, RECORD_DATA);
            && Steady(s1) && s1.boot == s.boot && s1.pageStart == s.pageStart && s1.trace == s.trace
            && Reading(s1, a, s1.checksum, len) && s1.checksum == (len + a / 256 + a % 256 + RECORD_DATA) % 256
  {
    SteadyAlso(s, AfterHeader(s, len, a / 256, a % 256, RECORD_DATA));
  }

  /** A record for an address below boot that arrives while the page in progress is below boot. */
  lemma {:induction false} RecordGuarded(s: State, r: DataRecord)
    requires Guarded(s, s.boot) && s.pageStart < s.boot && IsRecord(r) && r.addr < s.boot
    ensures Valid(s)
    ensures var t := Run(s, Record(r.addr, RECORD_DATA, r.bytes));
            Guarded(t, s.boot) && (t.pageStart == s.boot <==> Crosses(r, s.boot))
  {
    hide Run, Record, HexByte, HexText, TakeByte, Sum, Steady, Settled, AfterHeader, Spares, ValidFlash;
    SteadyValid(s);
    var n, bytes := r.addr, r.bytes;
    var ck := RecordParsed(s, n, RECORD_DATA, bytes, []);
    HeaderGuarded(s, n, |bytes|);
    var s1 := AfterHeader(s, |bytes|, n / 256, n % 256, RECORD_DATA);
    DataGuarded(s1, bytes);
    SteadyValid(s1);
    WholeRecord(s, s1, n, bytes, ck);
    RecordDone(Run(s1, HexText(bytes)), s.boot, End(r), (s1.checksum + Sum(bytes)) % 256, ck);
  }

  /** A record for an address at or above boot is skipped; it touches no page, but the one in progress is given up. */
  lemma {:induction false} RecordSkipped(s: State, r: DataRecord)
    requires Steady(s) && IsRecord(r) && r.addr >= s.boot
    ensures Valid(s)
    ensures var t := Run(s, Record(r.addr, RECORD_DATA, r.bytes));
            Steady(t) && t.trace == s.trace && t.pageStart == s.pageStart && t.boot == s.boot && !t.dirty
  {
    hide Run, Record, HexByte, HexText, Sum, Steady, AfterHeader, ValidFlash;
    SteadyValid(s);
    var n, bytes := r.addr, r.bytes;
    var ck := RecordParsed(s, n, RECORD_DATA, bytes, []);
    HeaderGuarded(s, n, |bytes|);
    var s1 := AfterHeader(s, |bytes|, n / 256, n % 256, RECORD_DATA);
    NoMark([ck]);
    HexTextCons(ck, []);
    HexTextNone();
    assert [ck] == [ck] + [] && HexByte(ck) + [] == HexByte(ck);
    var record := Record(n, RECORD_DATA, bytes);
    assert record + [] == record;
    Skipped(s1, bytes, HexByte(ck));
  }

  /** A record for an address below boot erases the boot section, if that is the page in progress, whatever follows. */
  lemma {:induction false} RecordErasesBoot(s: State, r: DataRecord, text: string)
    requires Steady(s) && s.pageStart == s.boot && IsRecord(r) && r.addr < s.boot
    ensures Valid(s) && !Spares(Run(s, Record(r.addr, RECORD_DATA, r.bytes) + text).trace, s.boot)
  {
    hide Run, Record, HexByte, HexText, Sum, Steady, AfterHeader, Spares, ValidFlash;
    SteadyValid(s);
    var n, bytes := r.addr, r.bytes;
    var ck := RecordParsed(s, n, RECORD_DATA, bytes, text);
    HeaderGuarded(s, n, |bytes|);
    var s1 := AfterHeader(s, |bytes|, n / 256, n % 256, RECORD_DATA);
    DataErases(s1, bytes, HexByte(ck) + text);
  }

  lemma {:induction false} DataErases(s: State, bytes: seq<Octet>, text: string)
    requires Steady(s) && s.pageStart == s.boot && 0 < |bytes| < 256
    requires Reading(s, s.addr, s.checksum, |bytes|) && s.addr < s.boot
    ensures Valid(s) && !Spares(Run(s, HexText(bytes) + text).trace, s.boot)
  {
    hide Run, HexByte, HexText, TakeByte, Steady, Spares, ValidFlash;
    SteadyValid(s);
    if |bytes| % 2 == 0 {
      var lo, more := bytes[0], bytes[2..];
      FirstBytes(bytes, text);
      RunByte(s, lo, HexByte(bytes[1]) + (HexText(more) + text));
      FirstOfWord(s, lo, |more|);
      var s1 := TakeByte(s.(data := lo));
      SteadyAlso(s, s1);
      FirstWordErases(s1, bytes[1], |more|, HexText(more) + text);
    } else {
      var b, more := bytes[0], bytes[1..];
      assert bytes == [b] + more;
      HexTextCons(b, more);
      assert HexText(bytes) + text == HexByte(b) + (HexText(more) + text);
      FirstWordErases(s, b, |more|, HexText(more) + text);
    }
  }

  lemma {:induction false} FirstWordErases(s: State, hi: Octet, remaining: nat, text: string)
    requires Steady(s) && s.pageStart == s.boot && s.addr < s.boot && remaining % 2 == 0
    requires s.phase.ReadData? && s.recordType == RECORD_DATA && s.dataRem == remaining + 1
    ensures Valid(s) && !Spares(Run(s, HexByte(hi) + text).trace, s.boot)
  {
    hide Run, HexByte, TakeByte, TakeWord, Steady, Spares, ValidFlash;
    SteadyValid(s);
    RunByte(s, hi, text);
    SecondOfWord(s, hi, remaining);
    var s3 := s.(data := hi, checksum := (s.checksum + hi) % 256, dataRem := remaining);
    SteadyAlso(s, s3);
    WordErasesBoot(s3);
    StaysErased(TakeByte(s.(data := hi)), text, s.boot);
  }

  lemma {:induction false} FirstBytes(bytes: seq<Octet>, text: string)
    requires |bytes| >= 2
    ensures HexText(bytes) + text == HexByte(bytes[0]) + (HexByte(bytes[1]) + (HexText(bytes[2..]) + text))
  {
    hide HexText, HexByte;
    assert bytes == [bytes[0]] + ([bytes[1]] + bytes[2..]);
    HexTextCons(bytes[0], [bytes[1]] + bytes[2..]);
    HexTextCons(bytes[1], bytes[2..]);
  }

  lemma {:induction false} StaysErased(s: State, text: string, boot: nat)
    requires Valid(s) && !Spares(s.trace, boot)
    ensures !Spares(Run(s, text).trace, boot)
  {
    hide Run;
    TraceGrows(s, text);
    var op :| op in s.trace && !op.FillOp? && op.page >= boot;
    assert op in Run(s, text).trace;
  }

  lemma {:induction false} EndGuarded(s: State)
    requires Steady(s) && Spares(s.trace, s.boot)
    ensures Spares(Run(s, EndRecord()).trace, s.boot)
  {
    hide Run, Record, Spares, Write, PageOf;
    EndParsed(s);
    SparesMore(s.trace, WriteOp(s.pageStart), s.boot);
  }

  /** All records are for addresses at or above boot. */
  predicate AllAbove(rs: seq<DataRecord>, boot: nat)
  {
    rs != [] ==> rs[0].addr >= boot && AllAbove(rs[1..], boot)
  }

  /** No record that crosses boot is followed, at once or later, by a record for an address below boot. */
  predicate NeverReturns(rs: seq<DataRecord>, boot: nat)
  {
    forall i, j :: 0 <= i < j < |rs| && Crosses(rs[i], boot) ==> rs[j].addr >= boot
  }

  lemma {:induction false} AllAboveMeans(rs: seq<DataRecord>, boot: nat)
    ensures AllAbove(rs, boot) <==> forall j :: 0 <= j < |rs| ==> rs[j].addr >= boot
  {
    if rs != [] {
      AllAboveMeans(rs[1..], boot);
      assert forall j :: 0 < j < |rs| ==> rs[j] == rs[1..][j - 1];
      assert forall j :: 0 <= j < |rs[1..]| ==> rs[1..][j] == rs[j + 1];
    }
  }

  lemma {:induction false} NeverReturnsFirst(rs: seq<DataRecord>, boot: nat)
    requires rs != []
    ensures NeverReturns(rs, boot) <==>
            (Crosses(rs[0], boot) ==> AllAbove(rs[1..], boot)) && NeverReturns(rs[1..], boot)
  {
    hide Crosses, AllAbove;
    var more := rs[1..];
    AllAboveMeans(more, boot);
    assert forall j :: 0 < j < |rs| ==> rs[j] == more[j - 1];
    assert forall j :: 0 <= j < |more| ==> more[j] == rs[j + 1];
  }

  lemma {:induction false} AllAboveNeverReturns(rs: seq<DataRecord>, boot: nat)
    requires AllAbove(rs, boot)
    ensures NeverReturns(rs, boot)
  {
    AllAboveMeans(rs, boot);
  }

  /** Once the page in progress is boot, the boot section is spared exactly if no record is for an address below it. */
  lemma {:induction false} AtBoot(s: State, rs: seq<DataRecord>)
    requires Guarded(s, s.boot) && s.pageStart == s.boot && AreRecords(rs)
    ensures Valid(s)
    ensures Spares(Run(s, RecordsText(rs) + EndRecord()).trace, s.boot) <==> AllAbove(rs, s.boot)
    decreases |rs|
  {
    hide Run, Record, Steady, Spares, ValidFlash;
    SteadyValid(s);
    if rs == [] {
      assert RecordsText(rs) + EndRecord() == EndRecord();
      EndGuarded(s);
    } else {
      var r, more := rs[0], rs[1..];
      assert r in rs && forall x :: x in more ==> x in rs;
      var text, tail := Record(r.addr, RECORD_DATA, r.bytes), RecordsText(more) + EndRecord();
      assert RecordsText(rs) + EndRecord() == text + tail;
      if r.addr < s.boot {
        RecordErasesBoot(s, r, tail);
      } else {
        RecordSkipped(s, r);
        RunAppend(s, text, tail);
        AtBoot(Run(s, text), more);
      }
    }
  }

  lemma {:induction false} RecordsGuarded(s: State, rs: seq<DataRecord>)
    requires Guarded(s, s.boot) && s.pageStart < s.boot && AreRecords(rs)
    ensures Valid(s)
    ensures Spares(Run(s, RecordsText(rs) + EndRecord()).trace, s.boot) <==> NeverReturns(rs, s.boot)
    decreases |rs|
  {
    hide Run, Record, Steady, Spares, ValidFlash, NeverReturns, AllAbove;
    SteadyValid(s);
    if rs == [] {
      assert RecordsText(rs) + EndRecord() == EndRecord();
      EndGuarded(s);
      NoneReturn(s.boot);
      return;
    }
    var r, more := rs[0], rs[1..];
    assert r in rs && forall x :: x in more ==> x in rs;
    var text, tail := Record(r.addr, RECORD_DATA, r.bytes), RecordsText(more) + EndRecord();
    assert RecordsText(rs) + EndRecord() == text + tail;
    RunAppend(s, text, tail);
    NeverReturnsFirst(rs, s.boot);
    if r.addr >= s.boot {
      RecordSkipped(s, r);
      RecordsGuarded(Run(s, text), more);
    } else {
      RecordGuarded(s, r);
      SteadyValid(Run(s, text));
      if Crosses(r, s.boot) {
        AtBoot(Run(s, text), more);
        if AllAbove(more, s.boot) {
          AllAboveNeverReturns(more, s.boot);
        }
      } else {
        RecordsGuarded(Run(s, text), more);
      }
    }
  }

  lemma {:induction false} NoneReturn(boot: nat)
    ensures NeverReturns([], boot)
  {
  }

  /**
   A file of data records for any addresses, in any order, spares the boot section if and only if no record that
   crosses its start is followed, at once or later, by a record for an address below it.
   */
  lemma {:induction false} FileSparesIff(s: State, rs: seq<DataRecord>)
    requires Connected(s) && Spares(s.trace, s.boot) && AreRecords(rs)
    ensures Spares(Run(s, RecordsText(rs) + EndRecord()).trace, s.boot) <==> NeverReturns(rs, s.boot)
  {
    hide Run, Record, RecordsText, NeverReturns, Spares, AllAbove;
    assert Steady(s) by { PageOfOffset(0, 0, PageSize(s.flash)); }
    if s.boot == 0 {
      AtBoot(s, rs);
      EverythingAbove(rs);
      AllAboveNeverReturns(rs, 0);
    } else {
      RecordsGuarded(s, rs);
    }
  }

  lemma {:induction false} EverythingAbove(rs: seq<DataRecord>)
    ensures AllAbove(rs, 0)
  {
    AllAboveMeans(rs, 0);
  }

  /** Such a file leaves the boot section as it was. */
  lemma {:induction false} FileKeepsBoot(s: State, f: Flash, rs: seq<DataRecord>)
    requires Connected(s) && Explained(s, f) && Spares(s.trace, s.boot) && AreRecords(rs) && NeverReturns(rs, s.boot)
    ensures SameFrom(f, Run(s, RecordsText(rs) + EndRecord()).flash, s.boot)
  {
    hide Run, RecordsText, NeverReturns, Spares, Explained, SameFrom;
    FileSparesIff(s, rs);
    SparedRun(s, f, RecordsText(rs) + EndRecord());
  }

  /**
   A file that fills the application section, followed by a word for address 0: the word ends up at the start of
   the boot section, the rest of whose first page is blank.
   */
  lemma {:induction false} FullFileThenWord(s: State, chunks: seq<seq<Octet>>, lo: Octet, hi: Octet)
    requires Connected(s) && Chunked(chunks) && 0 < |Concat(chunks)| == s.boot <= 0x1_0000
    requires s.boot + PageSize(s.flash) <= |s.flash.mem| && PageSize(s.flash) > 2
    ensures var mem, size := s.flash.mem, PageSize(s.flash);
            && RoundUp(s.boot, size) == s.boot
            && Run(s, DataRecords(0, chunks) + Record(0, RECORD_DATA, [lo, hi])).flash.mem ==
               SetPage(Stored(mem, size, 0, Concat(chunks)), s.boot, Padded([lo, hi], size))
  {
    hide Run, DataRecords, Record, Loaded, Padded, Stored, SetPage, Write, Fill, Erase, LeftOver;
    var mem, size, image := s.flash.mem, PageSize(s.flash), Concat(chunks);
    StartsLoaded(s);
    var full, rest := RecordsLoad(s, mem, size, [], [], chunks);
    assert [] + [] + image == image;
    var u := Run(s, DataRecords(0, chunks));
    RunAppend(s, DataRecords(0, chunks), Record(0, RECORD_DATA, [lo, hi]));
    FullIsStored(u, mem, size, full, rest);
    LoadedValid(u, mem, size, full, rest);
    WordRecord(u, lo, hi);
    WordToBoot(Stored(mem, size, 0, image), size, s.boot, lo, hi);
  }

  /** A record without data moves the page in progress to its address, wherever that is, if anything is loaded. */
  lemma {:induction false} EmptyRecordMoves(s: State, a: nat, kind: Octet)
    requires Valid(s) && s.base == 0 && s.dirty && a < 0x1_0000 && PageOf(a, PageSize(s.flash)) != s.pageStart
    ensures var t := Run(s, Record(a, kind, []));
            && t.pageStart == PageOf(a, PageSize(s.flash)) && !t.dirty && t.trace == s.trace + [WriteOp(s.pageStart)]
  {
    hide Run, Record, HexByte, Sum, Write, TakeData, PageOf;
    var ck := RecordParsed(s, a, kind, [], []);
    HexTextNone();
    var s1 := AfterHeader(s, 0, a / 256, a % 256, kind);
    assert Record(a, kind, []) + [] == Record(a, kind, []) && HexText([]) + (HexByte(ck) + []) == HexByte(ck);
    HexByteParsed(s1, ck);
    assert s1.addr == a;
  }

  /** A file of whole pages has been stored, and the next page is the one behind it. */
  lemma {:induction false} FullIsStored(u: State, mem: seq<Octet>, size: nat, full: seq<Octet>, rest: seq<Octet>)
    requires Loaded(u, mem, size, full, rest) && |full + rest| == u.boot
    ensures u.pageStart == u.boot && !u.dirty && PageSize(u.flash) == size
    ensures size > 0 && RoundUp(u.boot, size) == u.boot <= |mem|
    ensures u.flash == Idle(Stored(mem, size, 0, full + rest), size)
  {
    hide Stored, Streamed, SetPage;
    DivModUnique(u.boot, size, |full| / size, |rest|);
    assert rest == [] && full + rest == full;
    StreamedIsStored(mem, size, 0, full);
  }

  /** A word for address 0 that arrives when the page in progress is boot. */
  lemma {:induction false} WordRecord(u: State, lo: Octet, hi: Octet)
    requires Valid(u) && u.base == 0 && !u.dirty && u.pageStart == u.boot > 0
    requires PageSize(u.flash) > 2 && u.boot % PageSize(u.flash) == 0
    ensures Run(u, Record(0, RECORD_DATA, [lo, hi])).flash == Write(Fill(Erase(u.flash, u.boot), 0, lo, hi), u.boot)
  {
    hide Run, Record, HexByte, HexText, TakeByte, TakeWord, Sum, Write, Fill, Erase, AfterHeader, ValidFlash;
    var ck := RecordParsed(u, 0, RECORD_DATA, [lo, hi], []);
    HexTextTwo(lo, hi);
    var record := Record(0, RECORD_DATA, [lo, hi]);
    assert record + [] == record;
    assert HexText([lo, hi]) + (HexByte(ck) + []) == HexByte(lo) + (HexByte(hi) + HexByte(ck));
    var s1 := AfterHeader(u, 2, 0, 0, RECORD_DATA);
    HeaderIs(u, s1);
    RunByte(s1, lo, HexByte(hi) + HexByte(ck));
    FirstOfWord(s1, lo, 0);
    var s2 := TakeByte(s1.(data := lo));
    RunByte(s2, hi, HexByte(ck));
    SecondOfWord(s2, hi, 0);
    var s3 := s2.(data := hi, checksum := (s2.checksum + hi) % 256, dataRem := 0);
    FirstPageWord(s3);
    var s4 := TakeByte(s2.(data := hi));
    HexByteParsed(s4, ck);
    CleanChecksum(s4.(data := ck));
  }

  lemma {:induction false} HexTextTwo(lo: Octet, hi: Octet)
    ensures HexText([lo, hi]) == HexByte(lo) + HexByte(hi)
  {
    hide HexByte;
    HexTextCons(lo, [hi]);
    HexTextCons(hi, []);
    assert [lo, hi] == [lo] + [hi] && [hi] == [hi] + [];
  }

  lemma {:induction false} HeaderIs(u: State, s: State)
    requires s == AfterHeader(u, 2, 0, 0, RECORD_DATA)
    ensures s == u.(phase := ReadData, readMsb := false, data := RECORD_DATA, dataRem := 2, addr := 0,
                    recordType := RECORD_DATA, checksum := 2)
  {
  }

  lemma {:induction false} FirstPageWord(s: State)
    requires Valid(s) && s.recordType == RECORD_DATA && s.addr == 0 && !s.dirty && s.pageStart > 0
    requires PageSize(s.flash) > 2
    ensures var t := TakeWord(s);
            && t.flash == Write(Fill(Erase(s.flash, s.pageStart), 0, s.prevData, s.data), s.pageStart) && !t.dirty
            && t == s.(flash := t.flash, trace := t.trace, addr := 2, pageStart := 0)
  {
    hide Write, Fill, Erase, PageOf;
    PageOfOffset(0, 2, PageSize(s.flash));
  }

  lemma {:induction false} CleanChecksum(s: State)
    requires Valid(s) && !s.dirty && s.phase.Checksum?
    ensures TakeByte(s).flash == s.flash
  {
    hide TakeData;
  }

  /** The buffer takes a word at its offset in a page, whatever the page. */
  lemma {:induction false} WordToBoot(mem: seq<Octet>, size: nat, boot: nat, lo: Octet, hi: Octet)
    requires IsPage(mem, size, boot)
    ensures ValidFlash(Idle(mem, size))
    ensures Write(Fill(Erase(Idle(mem, size), boot), 0, lo, hi), boot) ==
            Idle(SetPage(mem, boot, Padded([lo, hi], size)), size)
  {
    hide Write, Erase, SetPage, Padded;
    EraseStarts(mem, size, boot, 0);
    var f := InPage(mem, size, boot, []);
    assert Fill(f, 0, lo, hi) == Fill(f, boot, lo, hi) by { PageOfOffset(0, 0, size); }
    FillAdds(mem, size, boot, [], lo, hi);
    assert [] + [lo, hi] == [lo, hi];
    WriteStores(mem, size, boot, [lo, hi], 0);
  }
}
