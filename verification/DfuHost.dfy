/** The DFU-class loader as its host sees it: what the commands other than programming flash answer and change. */
module DfuHost {
  import opened Arithmetic
  import opened Flash
  import opened Dfu

  // ---------------------------------------------------------------------------
  // EEPROM

  /** How many bytes come between the command and the data: the rest of a packet, and the alignment filler. */
  function FillerSize(start: nat): nat
  {
    PACKET - 1 - PARAMS + if start % PACKET == 0 then 0 else start % PACKET - 1
  }

  function ProgramEeprom(start: nat, filler: seq<Octet>, data: seq<Octet>, suffix: seq<Octet>): Request
    requires data != [] && start + |data| <= 0x1_0000
  {
    Download(MemoryCommand(0x01, 0x01, start, start + |data| - 1) + filler + data + suffix)
  }

  function DisplayEeprom(start: nat, n: nat): Request
    requires n > 0 && start + n <= 0x1_0000
  {
    Download(MemoryCommand(0x03, 0x02, start, start + n - 1))
  }

  /** A range of bytes inside the EEPROM. */
  predicate InEeprom(s: State, start: nat, n: nat)
  {
    0 < n < 0x1_0000 && start + n <= |s.eeprom| && start + n <= 0x1_0000
  }

  /** A device that accepts commands. */
  ghost predicate Accepts(s: State)
  {
    Valid(s) && !s.secure && !s.waitForExit
  }

  lemma {:induction false} WritesBytes(e: seq<Octet>, a: nat, bytes: seq<Octet>)
    requires a + |bytes| <= |e| && a + |bytes| <= 0x1_0000
    ensures WriteEeprom(e, a, bytes) == SetPage(e, a, bytes)
    decreases |bytes|
  {
    hide SetPage;
    if bytes == [] {
      SetNothing(e, a);
    } else if |bytes| == 1 {
      assert bytes[1..] == [];
      SetsFirst(e, a, bytes);
      SetNothing(e[a := bytes[0]], a + 1);
    } else {
      SetsFirst(e, a, bytes);
      WritesBytes(e[a := bytes[0]], a + 1, bytes[1..]);
    }
  }

  lemma {:induction false} SetsFirst(e: seq<Octet>, a: nat, bytes: seq<Octet>)
    requires a + |bytes| <= |e| && bytes != []
    ensures SetPage(e, a, bytes) == SetPage(e[a := bytes[0]], a + 1, bytes[1..])
  {
  }

  lemma {:induction false} ReadsBytesBack(e: seq<Octet>, a: nat, data: seq<Octet>)
    requires a + |data| <= |e| && a + |data| <= 0x1_0000
    ensures ReadEepromRange(SetPage(e, a, data), a, |data|) == data
  {
    var stored := SetPage(e, a, data);
    var read := ReadEepromRange(stored, a, |data|);
    forall i | 0 <= i < |data| ensures read[i] == data[i] {
      assert read[i] == ReadEeprom(stored, (a + i) % 0x1_0000);
      assert (a + i) % 0x1_0000 == a + i && stored[a + i] == data[i];
    }
  }

  lemma {:induction false} ReceiveEeprom(s: State, payload: seq<Octet>, data: seq<Octet>, suffix: seq<Octet>)
    requires Valid(s) && s.params[0] == 0x01 && InEeprom(s, s.startAddr, |data|)
    requires s.endAddr == s.startAddr + |data| - 1
    requires |payload| >= 1 + PARAMS + FillerSize(s.startAddr)
    requires payload[1 + PARAMS + FillerSize(s.startAddr)..] == data + suffix
    ensures ReceiveFirmware(s, payload) ==
            s.(startAddr := (s.startAddr + |data|) % 0x1_0000, eeprom := SetPage(s.eeprom, s.startAddr, data))
  {
    hide WriteEeprom, SetPage, ValidFlash;
    assert BytesRemaining(s) == |data|;
    assert (data + suffix)[..|data|] == data;
    WritesBytes(s.eeprom, s.startAddr, data);
  }

  /** An EEPROM download stores its data at its addresses, and changes nothing else in either memory. */
  lemma {:induction false} ProgramsEeprom(s: State, start: nat, filler: seq<Octet>, data: seq<Octet>,
                                          suffix: seq<Octet>)
    requires Accepts(s) && InEeprom(s, start, |data|) && |filler| == FillerSize(start)
    ensures var t := Handle(s, ProgramEeprom(start, filler, data, suffix)).0;
            && t.eeprom == SetPage(s.eeprom, start, data) && t.flash == s.flash && t.flash64 == s.flash64
            && Accepts(t)
  {
    hide Process, ReceiveFirmware, SetPage, ValidFlash, MemoryCommand, FillerSize, HandleDownload;
    var end := start + |data| - 1;
    var head, tail := MemoryCommand(0x01, 0x01, start, end), filler + data + suffix;
    var payload := ProgramEeprom(start, filler, data, suffix).payload;
    Parts(head, filler, data, suffix);
    CommandLoads(s, head, tail);
    MemoryCommandBytes(0x01, 0x01, start, end);
    var s1 := s.(command := head[0], params := head[1..]);
    EepromAccepted(s1, start, end, |tail|);
    ReceiveEeprom(Process(s1, |tail|), payload, data, suffix);
  }

  lemma {:induction false} EepromAccepted(s: State, start: nat, end: nat, dataSize: nat)
    requires Valid(s) && !s.secure && s.command == 0x01 && s.params[0] == 0x01
    requires Word(s.params[1], s.params[2]) == start && Word(s.params[3], s.params[4]) == end
    ensures Process(s, dataSize) == s.(startAddr := start, endAddr := end, mode := DFU_DNLOAD_IDLE)
  {
    hide ValidFlash;
  }

  /** An EEPROM upload answers the bytes at its addresses, and changes no memory. */
  lemma {:induction false} ReadsEeprom(s: State, start: nat, n: nat)
    requires Accepts(s) && InEeprom(s, start, n)
    ensures var t := Handle(s, DisplayEeprom(start, n)).0;
            var (u, answer) := Handle(t, Upload);
            && answer == s.eeprom[start..start + n]
            && u.flash == s.flash && u.eeprom == s.eeprom && u.mode == 2
  {
    hide Handle, ReadEepromRange, ValidFlash, MemoryCommand, BytesRemaining;
    DisplayRuns(s, 0x02, start, n);
    UploadsEeprom(Handle(s, DisplayEeprom(start, n)).0);
    var bytes := s.eeprom[start..start + n];
    ReadsBytesBack(s.eeprom, start, bytes);
    assert SetPage(s.eeprom, start, bytes) == s.eeprom;
  }

  lemma {:induction false} UploadsEeprom(s: State)
    requires Valid(s) && s.mode == DFU_UPLOAD_IDLE && s.params[0] == 0x02
    ensures var (t, answer) := Handle(s, Upload);
            && answer == ReadEepromRange(s.eeprom, s.startAddr, BytesRemaining(s))
            && t.flash == s.flash && t.eeprom == s.eeprom && t.mode == 2
            && t.startAddr == (s.startAddr + BytesRemaining(s)) % 0x1_0000
  {
    hide ReadRange, ReadEepromRange, ValidFlash, BytesRemaining;
  }

  /** Downloading to the EEPROM and uploading again returns the data; everything outside the range is as it was. */
  lemma {:induction false} EepromRoundTrip(s: State, start: nat, filler: seq<Octet>, data: seq<Octet>,
                                           suffix: seq<Octet>)
    requires Accepts(s) && InEeprom(s, start, |data|) && |filler| == FillerSize(start)
    ensures var t := Handle(s, ProgramEeprom(start, filler, data, suffix)).0;
            var u := Handle(t, DisplayEeprom(start, |data|)).0;
            var (v, answer) := Handle(u, Upload);
            && answer == data && v.flash == s.flash && |v.eeprom| == |s.eeprom|
            && forall i :: 0 <= i < |s.eeprom| ==>
                 v.eeprom[i] == if start <= i < start + |data| then data[i - start] else s.eeprom[i]
  {
    hide Handle, Accepts;
    AcceptsValid(s);
    ProgramsEeprom(s, start, filler, data, suffix);
    ReadsEeprom(Handle(s, ProgramEeprom(start, filler, data, suffix)).0, start, |data|);
    assert SetPage(s.eeprom, start, data)[start..start + |data|] == data;
  }

  /** How many bytes a range has in 16 bits: addresses may wrap, and all 64 KB count as none. */
  function Span(start: nat, end: nat): int
  {
    if start > end + 1 then end - start + 1 + 0x1_0000 else if end - start == 0xFFFF then 0 else end - start + 1
  }

  /**
   A read request for any two addresses: the bytes of the span, also around the end of the address space. So it
   answers as many bytes as the addresses say exactly if they are in order and do not span all 64 KB.
   */
  lemma {:induction false} ReadsSpan(s: State, start: nat, end: nat)
    requires Accepts(s) && start < 0x1_0000 && end < 0x1_0000
    ensures var t := Handle(s, Download(MemoryCommand(0x03, 0x02, start, end))).0;
            var answer := Handle(t, Upload).1;
            && |answer| == Span(start, end)
            && (forall i :: 0 <= i < |answer| ==>
                  var a := if start + i < 0x1_0000 then start + i else start + i - 0x1_0000;
                  answer[i] == if a < |s.eeprom| then s.eeprom[a] else 0xFF)
            && (|answer| == end - start + 1 <==> start <= end + 1 && end - start != 0xFFFF)
  {
    hide Process, ReceiveFirmware, ReadEepromRange, ReadRange, ValidFlash, MemoryCommand, HandleDownload;
    var head := MemoryCommand(0x03, 0x02, start, end);
    assert head + [] == head;
    CommandLoads(s, head, []);
    MemoryCommandBytes(0x03, 0x02, start, end);
    DisplayAccepted(s.(command := head[0], params := head[1..]), start, end);
    var t := s.(command := head[0], params := head[1..], startAddr := start, endAddr := end, mode := DFU_UPLOAD_IDLE);
    SpanIs(t);
    UploadsEeprom(t);
    ReadsAround(s.eeprom, start, Span(start, end));
  }

  lemma {:induction false} SpanIs(s: State)
    requires s.startAddr < 0x1_0000 && s.endAddr < 0x1_0000
    ensures BytesRemaining(s) == Span(s.startAddr, s.endAddr) < 0x1_0000
  {
  }

  lemma {:induction false} ReadsAround(e: seq<Octet>, start: nat, n: nat)
    requires start < 0x1_0000 && n < 0x1_0000
    ensures forall i :: 0 <= i < n ==>
              var a := if start + i < 0x1_0000 then start + i else start + i - 0x1_0000;
              ReadEepromRange(e, start, n)[i] == if a < |e| then e[a] else 0xFF
  {
    var read := ReadEepromRange(e, start, n);
    forall i | 0 <= i < n
      ensures var a := if start + i < 0x1_0000 then start + i else start + i - 0x1_0000;
              read[i] == if a < |e| then e[a] else 0xFF
    {
      assert read[i] == ReadEeprom(e, (start + i) % 0x1_0000);
    }
  }

  /** A data stage that ends before the range does leaves the start address where it was; a whole one does not. */
  lemma {:induction false} ShortDownload(s: State, start: nat, n: nat, filler: seq<Octet>, data: seq<Octet>)
    requires Accepts(s) && 0 < n < 0x1_0000 && start + n <= 0x1_0000 && start % PACKET == 0
    requires |filler| == PACKET - 1 - PARAMS
    ensures var head := MemoryCommand(0x01, 0x00, start, start + n - 1);
            var t := Handle(s, Download(head + filler + data + [])).0;
            t.startAddr == if |data| / 2 < n / 2 then start else start + n - 1
  {
    hide Process, ReceiveFirmware, ProgramWords, Erase, ValidFlash, MemoryCommand, HandleDownload;
    var head := MemoryCommand(0x01, 0x00, start, start + n - 1);
    Parts(head, filler, data, []);
    CommandLoads(s, head, filler + data + []);
    MemoryCommandBytes(0x01, 0x00, start, start + n - 1);
    var s1 := s.(command := head[0], params := head[1..]);
    ProgramAccepted(s1, start, start + n - 1, |filler + data + []|);
    ReceiveShort(Process(s1, |filler + data + []|), head + filler + data + [], data);
  }

  lemma {:induction false} ReceiveShort(s: State, payload: seq<Octet>, data: seq<Octet>)
    requires Valid(s) && s.params[0] == 0x00 && s.startAddr % PACKET == 0 && s.startAddr <= s.endAddr
    requires s.endAddr - s.startAddr < 0xFFFF
    requires |payload| >= PACKET && payload[PACKET..] == data + []
    ensures ReceiveFirmware(s, payload).startAddr ==
            if |data| / 2 < (s.endAddr - s.startAddr + 1) / 2 then s.startAddr else s.endAddr
  {
    hide ProgramWords, ValidFlash;
    assert BytesRemaining(s) == s.endAddr - s.startAddr + 1;
  }

  lemma {:induction false} AcceptsValid(s: State)
    requires Accepts(s)
    ensures Valid(s)
  {
  }

  // ---------------------------------------------------------------------------
  // Short commands

  /** A command of three or four bytes: the missing parameters are those of the last command. */
  lemma {:induction false} ShortCommand(s: State, payload: seq<Octet>)
    requires Valid(s) && !s.waitForExit && 3 <= |payload| <= 1 + PARAMS
    ensures var s1 := s.(command := payload[0], params := payload[1..] + s.params[|payload| - 1..]);
            && Valid(s1) && s1.params[0] == payload[1] && s1.params[1] == payload[2]
            && (|payload| > 3 ==> s1.params[2] == payload[3])
            && HandleDownload(s, payload) == EndDownload(Process(s1, 0))
  {
    hide Process, ReceiveFirmware, ValidFlash;
    var n := |payload| - 1;
    assert payload[1..1 + n] == payload[1..];
  }

  /** The first used address of the application section, or none. */
  ghost predicate FirstUsedAt(f: Flash, boot: nat, a: nat)
  {
    a < boot && a < |f.mem| && f.mem[a] != 0xFF && forall i :: 0 <= i < a ==> f.mem[i] == 0xFF
  }

  ghost predicate AllBlankBelow(f: Flash, boot: nat)
  {
    forall i :: 0 <= i < boot && i < |f.mem| ==> f.mem[i] == 0xFF
  }

  /** The mode after a request without data: a download has ended. */
  function Ended(mode: Octet): Octet
  {
    if mode == 5 then 2 else mode
  }

  lemma {:induction false} BlankChecked(s: State) returns (a: nat)
    requires Accepts(s)
    ensures a < s.boot ==> FirstUsedAt(s.flash, s.boot, a) && !AllBlankBelow(s.flash, s.boot)
    ensures a >= s.boot ==> AllBlankBelow(s.flash, s.boot)
    ensures var t := Handle(s, Download([0x03, 0x01, 0x00])).0;
            if a >= s.boot then t.mode == Ended(s.mode) && t.status == s.status
            else t.mode == 10 && t.status == 5 && t.params[0] == 0x01
                 && t.flash64 == a / 0x1_0000 % 256 && t.startAddr == a % 0x1_0000
  {
    hide ProcessProgram, ProcessWrite, ReadTable, HandleDownload, ValidFlash, FirstUsed, FirstUsedAt, AllBlankBelow;
    ShortCommand(s, [0x03, 0x01, 0x00]);
    a := FirstUsed(s.flash, 0, s.boot);
    FirstUsedIs(s.flash, s.boot, a);
  }

  lemma {:induction false} FirstUsedIs(f: Flash, boot: nat, a: nat)
    requires a == FirstUsed(f, 0, boot) && boot <= |f.mem|
    ensures a < boot ==> FirstUsedAt(f, boot, a) && !AllBlankBelow(f, boot)
    ensures a == boot ==> AllBlankBelow(f, boot)
  {
    forall i | 0 <= i < a ensures f.mem[i] == 0xFF {
      assert ReadFlash(f, i) == BLANK;
    }
    if a < boot {
      assert ReadFlash(f, a) == f.mem[a];
    }
  }

  /**
   The blank check: it reports an error exactly if some byte of the application section is used, and then the next
   two bytes uploaded, with the 64 KB page it has selected, are the first such address.
   */
  lemma {:induction false} BlankCheckReports(s: State)
    requires Accepts(s) && s.boot <= 0x100_0000 && s.status != 5
    ensures var t := Handle(s, Download([0x03, 0x01, 0x00])).0;
            var status, answer := Handle(t, GetStatus).1, Handle(t, Upload).1;
            && (status[0] == 0x05 <==> !AllBlankBelow(s.flash, s.boot))
            && (status[0] == 0x05 ==>
                  && status == [0x05, 0, 0, 0, 0x0A, 0] && |answer| == 2
                  && FirstUsedAt(s.flash, s.boot, Address(t.flash64, answer[1], answer[0])))
  {
    hide Handle, ValidFlash, AllBlankBelow, FirstUsedAt, Address;
    var a := BlankChecked(s);
    Answers(Handle(s, Download([0x03, 0x01, 0x00])).0);
    if a < s.boot {
      AddressBytes(a);
    }
  }

  /** An address of the flash from its 64 KB page and its two lower bytes. */
  function Address(page: Octet, hi: Octet, lo: Octet): nat
  {
    page * 0x1_0000 + hi * 256 + lo
  }

  lemma {:induction false} Answers(s: State)
    requires Valid(s)
    ensures Handle(s, GetStatus).1 == [s.status, 0, 0, 0, s.mode, 0]
    ensures s.mode == 10 && s.params[0] == 0x01 ==> Handle(s, Upload).1 == [s.startAddr % 256, s.startAddr / 256]
  {
    hide ReadRange, ReadEepromRange, ValidFlash;
  }

  lemma {:induction false} AddressBytes(a: nat)
    requires a < 0x100_0000
    ensures Address(a / 0x1_0000 % 256, a % 0x1_0000 / 256, a % 0x1_0000 % 256) == a
  {
    assert a / 0x1_0000 < 256;
  }

  /** The page command selects a 64 KB page if and only if its first two parameters are 3 and 0. */
  lemma {:induction false} SelectsPage(s: State, a: Octet, b: Octet, page: Octet)
    requires Accepts(s)
    ensures var t := Handle(s, Download([0x06, a, b, page])).0;
            && t.flash64 == (if a == 0x03 && b == 0x00 then page else s.flash64) && Accepts(t)
            && t.flash == s.flash && t.eeprom == s.eeprom && t.mode == Ended(s.mode) && t.run == s.run
  {
    hide ProcessProgram, ProcessDisplay, ProcessWrite, ReadTable, HandleDownload, ValidFlash;
    ShortCommand(s, [0x06, a, b, page]);
  }

  /** Then flash commands reach that page. */
  lemma {:induction false} SelectThenRead(s: State, page: Octet, start: nat, n: nat)
    requires Accepts(s) && 0 < n < 0x1_0000 && n % 2 == 0 && start + n <= 0x1_0000
    ensures var t := Handle(s, Download([0x06, 0x03, 0x00, page])).0;
            var u := Handle(t, DisplayRequest(start, n)).0;
            Handle(u, Upload).1 == ReadRange(s.flash, page * 0x1_0000 + start, n)
  {
    hide Handle, ReadRange, ValidFlash, MemoryCommand;
    SelectsPage(s, 0x03, 0x00, page);
    ReadsRange(Handle(s, Download([0x06, 0x03, 0x00, page])).0, start, n);
  }

  /** The commands that do something, by their first bytes. */
  predicate IsKnown(command: Octet, a: Octet, b: Octet)
  {
    || (command == 0x01 && a <= 0x01) || (command == 0x03 && a <= 0x02)
    || (command == 0x04 && (a == 0x03 || (a == 0x00 && b == 0xFF)))
    || (command == 0x05 && a <= 0x01) || (command == 0x06 && a == 0x03 && b == 0x00)
  }

  /** All other commands change nothing but the last command and its parameters. */
  lemma {:induction false} UnknownDoesNothing(s: State, payload: seq<Octet>)
    requires Accepts(s) && 3 <= |payload| <= 1 + PARAMS && !IsKnown(payload[0], payload[1], payload[2])
    ensures var t := Handle(s, Download(payload)).0;
            t == s.(command := payload[0], params := t.params, mode := Ended(s.mode))
  {
    hide EraseFrom, FirstUsed, LookUp, HandleDownload, ValidFlash;
    ShortCommand(s, payload);
  }

  /** Reading a boot loader byte, locked or not: the next upload answers it, unless a memory upload is pending. */
  lemma {:induction false} ReadsBootloader(s: State, i: Octet)
    requires Valid(s) && !s.waitForExit && s.mode != 9 && i < |s.info.bootloader|
    ensures var t := Handle(s, Download([0x05, 0x00, i])).0;
            Handle(t, Upload).1 == [s.info.bootloader[i]] && t.flash == s.flash && t.eeprom == s.eeprom
  {
    hide ProcessProgram, ProcessDisplay, ProcessWrite, HandleDownload, ReadRange, ReadEepromRange, ValidFlash;
    ShortCommand(s, [0x05, 0x00, i]);
  }

  /** The place of a signature byte in the table. */
  function SignatureIndex(i: Octet): int
  {
    if i < 0x60 then i as int - 0x30 else i as int - 0x60 + 3
  }

  /**
   Reading a signature byte: the next upload answers it exactly if no memory upload is pending and the device is not
   in its error state, in which it answers an address instead.
   */
  lemma {:induction false} ReadsSignatureIff(s: State, i: Octet)
    requires Valid(s) && !s.waitForExit && 0 <= SignatureIndex(i) < |s.info.signature|
    ensures var t := Handle(s, Download([0x05, 0x01, i])).0;
            Handle(t, Upload).1 == [s.info.signature[SignatureIndex(i)]] <==> s.mode != 9 && s.mode != 10
  {
    hide ProcessProgram, ProcessDisplay, ProcessWrite, HandleDownload, ReadRange, ReadEepromRange, ValidFlash;
    ShortCommand(s, [0x05, 0x01, i]);
  }

  // ---------------------------------------------------------------------------
  // Errors and the lock

  /** A request that a locked device refuses. */
  predicate Refused(payload: seq<Octet>)
  {
    |payload| >= 3 && payload[0] != 0x05 && !(payload[0] == 0x04 && payload[1] == 0x00 && payload[2] == 0xFF)
  }

  /** A locked device answers a refused command with an error, which the host can clear and abort. */
  lemma {:induction false} RefusedThenCleared(s: State, payload: seq<Octet>)
    requires Locked(s) && Refused(payload)
    ensures var t := Handle(s, Download(payload)).0;
            var u := Handle(t, ClearStatus).0;
            var v := Handle(u, Abort).0;
            && Handle(t, GetStatus).1 == [0x03, 0, 0, 0, 0x0A, 0]
            && Handle(u, GetStatus).1 == [0x00, 0, 0, 0, 0x0A, 0] && Handle(u, GetState).1 == [0x0A]
            && Handle(v, GetStatus).1 == [0x00, 0, 0, 0, 0x02, 0] && Handle(v, GetState).1 == [0x02]
            && v.secure && v.flash == s.flash && v.eeprom == s.eeprom
  {
    hide ProcessProgram, ProcessDisplay, ProcessWrite, ReadTable, ReceiveFirmware, ValidFlash;
  }

  /** A locked device is unlocked by the full erase and by nothing else, and is then blank. */
  lemma {:induction false} UnlocksIff(s: State, payload: seq<Octet>)
    requires Locked(s) && |payload| >= 3
    ensures var t := Handle(s, Download(payload)).0;
            && (!t.secure <==> payload[0] == 0x04 && payload[1] == 0x00 && payload[2] == 0xFF)
            && (!t.secure ==> AllBlankBelow(t.flash, s.boot))
  {
    hide EraseFrom, ProcessProgram, ProcessDisplay, ReadTable, ReceiveFirmware, ValidFlash;
    LockedStep(s, Download(payload));
  }

  // ---------------------------------------------------------------------------
  // Leaving the loader

  /**
   Starting the application by a jump takes two requests: the first names the address, and an empty one leaves the
   loader. Nothing else changes in between.
   */
  lemma {:induction false} JumpsToApplication(s: State, x: Octet, hi: Octet, lo: Octet, more: seq<Octet>)
    requires Accepts(s) && s.run && more != [] && s.mode != 5
    ensures var t := Handle(s, Download([0x04, 0x03, 0x01, x, hi, lo] + more)).0;
            var u := Handle(t, Download([])).0;
            && t.run && t.waitForExit && !u.run && !u.waitForExit
            && t.appStart == u.appStart == Word(hi, lo) && u.watchdog == s.watchdog
            && u.flash == s.flash && u.eeprom == s.eeprom
  {
    hide EraseFrom, ProcessProgram, ProcessDisplay, ReadTable, ReceiveFirmware, ValidFlash;
    var head := [0x04, 0x03, 0x01, x, hi, lo];
    var payload := head + more;
    assert payload[1..1 + PARAMS] + s.params[PARAMS..] == head[1..];
  }

  /** A read command as the second request keeps the loader running, and is answered as usual. */
  lemma {:induction false} OtherRequestStays(s: State, x: Octet, hi: Octet, lo: Octet, more: seq<Octet>, i: Octet)
    requires Accepts(s) && s.run && more != [] && s.mode != 5 && s.mode != 9 && i < |s.info.bootloader|
    ensures var t := Handle(s, Download([0x04, 0x03, 0x01, x, hi, lo] + more)).0;
            var u := Handle(t, Download([0x05, 0x00, i])).0;
            u.run && !u.waitForExit && u.appStart == Word(hi, lo) && Handle(u, Upload).1 == [s.info.bootloader[i]]
  {
    hide EraseFrom, ProcessProgram, ProcessDisplay, ReceiveFirmware, ValidFlash, ReadRange, ReadEepromRange;
    var head := [0x04, 0x03, 0x01, x, hi, lo];
    var payload := head + more;
    assert payload[1..1 + PARAMS] + s.params[PARAMS..] == head[1..];
    var t := Handle(s, Download(payload)).0;
    assert t == s.(command := 0x04, params := head[1..], waitForExit := true, appStart := Word(hi, lo));
    var t1 := t.(waitForExit := false);
    assert HandleDownload(t, [0x05, 0x00, i]) == HandleDownload(t1, [0x05, 0x00, i]);
    ReadsBootloader(t1, i);
    ShortCommand(t1, [0x05, 0x00, i]);
  }

  /** Starting it by a reset: an address is not used, and the empty request starts the watchdog instead. */
  lemma {:induction false} ResetsToApplication(s: State, rest: seq<Octet>)
    requires Accepts(s) && s.run && |rest| > 3 && s.mode != 5
    ensures var t := Handle(s, Download([0x04, 0x03, 0x00] + rest)).0;
            var u := Handle(t, Download([])).0;
            && t.watchdog == s.watchdog && u.watchdog && u.run && t.waitForExit && !u.waitForExit
            && u.appStart == s.appStart && u.flash == s.flash && u.eeprom == s.eeprom
  {
    hide EraseFrom, ProcessProgram, ProcessDisplay, ReadTable, ReceiveFirmware, ValidFlash;
    var payload := [0x04, 0x03, 0x00] + rest;
    assert payload[1..1 + PARAMS] + s.params[PARAMS..] == [0x03, 0x00] + rest[..3];
  }
}
