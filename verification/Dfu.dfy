/**
 The DFU-class boot loader: the commands that a host sends in DNLOAD requests, and what every request
 does to the device.
 */
module Dfu {
  import opened Arithmetic
  import opened Flash

  // The states and status codes of the DFU class that the loader uses
  const DFU_IDLE: Octet := 2
  const DFU_DNLOAD_IDLE: Octet := 5
  const DFU_UPLOAD_IDLE: Octet := 9
  const DFU_ERROR: Octet := 10
  const STATUS_OK: Octet := 0
  const ERR_WRITE: Octet := 3
  const ERR_CHECK_ERASED: Octet := 5

  const COMMAND_PROG_START := 1
  const COMMAND_DISP_DATA := 3
  const COMMAND_WRITE := 4
  const COMMAND_READ := 5
  const COMMAND_CHANGE_BASE := 6

  const PACKET := 32
  const PARAMS := 5

  /** What the device answers to read commands: its tables, and what an index outside them reads. */
  datatype Info = Info(bootloader: seq<Octet>, signature: seq<Octet>, stray: int -> Octet)

  datatype State = State(
    secure: bool,
    run: bool,
    waitForExit: bool,
    watchdog: bool,
    mode: Octet,
    status: Octet,
    command: Octet,
    params: seq<Octet>,
    response: Octet,
    appStart: nat,
    flash64: Octet,
    startAddr: nat,
    endAddr: nat,
    boot: nat,
    info: Info,
    flash: Flash,
    eeprom: seq<Octet>)

  ghost predicate Valid(s: State)
  {
    && ValidFlash(s.flash) && |s.params| == PARAMS
    && s.startAddr < 0x1_0000 && s.endAddr < 0x1_0000
    && s.boot % PageSize(s.flash) == 0 && s.boot <= |s.flash.mem|
  }

  datatype Request =
    | Download(payload: seq<Octet>)
    | Upload
    | GetStatus
    | ClearStatus
    | GetState
    | Abort
    | Other

  // ---------------------------------------------------------------------------
  // Memory

  function ReadFlash(f: Flash, a: nat): Octet
  {
    if a < |f.mem| then f.mem[a] else BLANK
  }

  /** The flash address that the current 64 KB page and a 16-bit address denote. */
  function Long(s: State, a: nat): nat
  {
    s.flash64 * 0x1_0000 + a
  }

  function BytesRemaining(s: State): nat
  {
    (s.endAddr - s.startAddr + 1) % 0x1_0000
  }

  /** Erases the application section, page by page from address a on. */
  function EraseFrom(f: Flash, a: nat, boot: nat): (r: Flash)
    requires ValidFlash(f)
    ensures ValidFlash(r) && PageSize(r) == PageSize(f) && |r.mem| == |f.mem|
    decreases boot - a
  {
    if a >= boot then f else EraseFrom(Write(Erase(f, a), a), a + PageSize(f), boot)
  }

  /** The first address from a on, below boot, that is not blank; boot if there is none. */
  function FirstUsed(f: Flash, a: nat, boot: nat): (r: nat)
    requires a <= boot
    ensures a <= r <= boot
    ensures r < boot ==> ReadFlash(f, r) != BLANK
    ensures forall i :: a <= i < r ==> ReadFlash(f, i) == BLANK
    decreases boot - a
  {
    if a == boot || ReadFlash(f, a) != BLANK then a else FirstUsed(f, a + 1, boot)
  }

  /**
   Programs words from the data stage, starting at address curr of the page that starts at page, of
   which inPage words are loaded already. A data stage that ends early leaves the page unwritten.
   */
  function ProgramWords(f: Flash, curr: nat, page: nat, inPage: Octet, words: nat, data: seq<Octet>): (r: Flash)
    requires ValidFlash(f)
    ensures ValidFlash(r) && PageSize(r) == PageSize(f) && |r.mem| == |f.mem|
    decreases words
  {
    if words == 0 || |data| < 2 then f
    else
      var filled := Fill(f, curr, data[0], data[1]);
      var n := (inPage + 1) % 256;
      if n == PageSize(f) / 2 || words == 1 then
        var written := Write(filled, page);
        if words == 1 then written
        else ProgramWords(Erase(written, curr + 2), curr + 2, curr + 2, 0, words - 1, data[2..])
      else ProgramWords(filled, curr + 2, page, n, words - 1, data[2..])
  }

  function ReadRange(f: Flash, a: nat, n: nat): (r: seq<Octet>)
    ensures |r| == n
  {
    seq<Octet>(n, i requires 0 <= i < n => ReadFlash(f, a + i))
  }

  function ReadEeprom(e: seq<Octet>, a: nat): Octet
  {
    if a < |e| then e[a] else BLANK
  }

  function ReadEepromRange(e: seq<Octet>, a: nat, n: nat): (r: seq<Octet>)
    ensures |r| == n
  {
    seq<Octet>(n, i requires 0 <= i < n => ReadEeprom(e, (a + i) % 0x1_0000))
  }

  /** Writes bytes to consecutive EEPROM addresses; addresses are 16 bits wide. */
  function WriteEeprom(e: seq<Octet>, a: nat, bytes: seq<Octet>): (r: seq<Octet>)
    ensures |r| == |e|
    decreases |bytes|
  {
    if bytes == [] then e
    else WriteEeprom(if a < |e| then e[a := bytes[0]] else e, (a + 1) % 0x1_0000, bytes[1..])
  }

  lemma {:induction false} WriteEepromNext(e: seq<Octet>, a: nat, bytes: seq<Octet>, i: nat)
    requires i < |bytes|
    ensures WriteEeprom(e, a, bytes[i..]) ==
            WriteEeprom(if a < |e| then e[a := bytes[i]] else e, (a + 1) % 0x1_0000, bytes[i + 1..])
  {
    assert bytes[i..][1..] == bytes[i + 1..];
  }

  lemma {:induction false} WriteEepromEnd(e: seq<Octet>, a: nat, bytes: seq<Octet>)
    ensures WriteEeprom(e, a, bytes[|bytes|..]) == e
  {
  }

  // ---------------------------------------------------------------------------
  // Commands

  predicate IsEraseCommand(params: seq<Octet>)
    requires |params| == PARAMS
  {
    params[0] == 0x00 && params[1] == 0xFF
  }

  predicate IsErase(s: State)
    requires |s.params| == PARAMS
  {
    s.command == COMMAND_WRITE && IsEraseCommand(s.params)
  }

  /** Processes the command last received; dataSize bytes of the request are left behind it. */
  function Process(s: State, dataSize: nat): (r: State)
    requires Valid(s)
    ensures Valid(r)
  {
    if s.secure && !IsErase(s) && s.command != COMMAND_READ then s.(mode := DFU_ERROR, status := ERR_WRITE)
    else if s.command == COMMAND_PROG_START then ProcessProgram(s)
    else if s.command == COMMAND_DISP_DATA then ProcessDisplay(s)
    else if s.command == COMMAND_WRITE then ProcessWrite(s, dataSize)
    else if s.command == COMMAND_READ then s.(response := ReadTable(s))
    else if s.command == COMMAND_CHANGE_BASE && s.params[0] == 0x03 && s.params[1] == 0x00 then
      s.(flash64 := s.params[2])
    else s
  }

  function WithAddresses(s: State): State
    requires |s.params| == PARAMS
  {
    s.(startAddr := Word(s.params[1], s.params[2]), endAddr := Word(s.params[3], s.params[4]))
  }

  function ProcessProgram(s: State): (r: State)
    requires Valid(s)
    ensures Valid(r)
  {
    if s.params[0] == 0x00 then
      var t := WithAddresses(s);
      t.(flash := Erase(t.flash, Long(t, t.startAddr)), mode := DFU_DNLOAD_IDLE)
    else if s.params[0] == 0x01 then WithAddresses(s).(mode := DFU_DNLOAD_IDLE)
    else s
  }

  function ProcessDisplay(s: State): (r: State)
    requires Valid(s)
    ensures Valid(r)
  {
    if s.params[0] == 0x00 || s.params[0] == 0x02 then WithAddresses(s).(mode := DFU_UPLOAD_IDLE)
    else if s.params[0] == 0x01 then
      var a := FirstUsed(s.flash, 0, s.boot);
      if a == s.boot then s
      else s.(flash64 := a / 0x1_0000 % 256, startAddr := a % 0x1_0000, mode := DFU_ERROR, status := ERR_CHECK_ERASED)
    else s
  }

  function ProcessWrite(s: State, dataSize: nat): (r: State)
    requires Valid(s)
    ensures Valid(r)
  {
    if s.params[0] == 0x03 then
      var t := s.(waitForExit := true);
      if dataSize > 0 then
        if s.params[1] == 0x01 then t.(appStart := Word(s.params[3], s.params[4])) else t
      else if s.params[1] == 0x00 then t.(watchdog := true)
      else t.(run := false)
    else if s.params[0] == 0x00 && s.params[1] == 0xFF then
      s.(flash := EraseFrom(s.flash, 0, s.boot), secure := false)
    else s
  }

  function ReadTable(s: State): Octet
    requires |s.params| == PARAMS
  {
    var i := s.params[1];
    if s.params[0] == 0x00 then LookUp(s.info.bootloader, i, s.info.stray)
    else if s.params[0] == 0x01 then
      LookUp(s.info.signature, if i < 0x60 then i as int - 0x30 else i as int - 0x60 + 3, s.info.stray)
    else s.response
  }

  function LookUp(table: seq<Octet>, i: int, stray: int -> Octet): Octet
  {
    if 0 <= i < |table| then table[i] else stray(i)
  }

  // ---------------------------------------------------------------------------
  // Requests

  /** The device after a request, and the bytes it answers. */
  function Handle(s: State, request: Request): (r: (State, seq<Octet>))
    requires Valid(s)
    ensures Valid(r.0)
  {
    match request
    case Download(payload) => (HandleDownload(s, payload), [])
    case Upload => HandleUpload(s)
    case GetStatus => (s, [s.status, 0, 0, 0, s.mode, 0])
    case ClearStatus => (s.(status := STATUS_OK), [])
    case GetState => (s, [s.mode])
    case Abort => (s.(mode := DFU_IDLE), [])
    case Other => (s, [])
  }

  function HandleDownload(s: State, payload: seq<Octet>): (r: State)
    requires Valid(s)
    ensures Valid(r)
  {
    var s1 := if s.waitForExit then Process(s, |payload|).(waitForExit := false) else s;
    if payload == [] then EndDownload(s1)
    else
      var dataSize := if |payload| - 1 < PARAMS then 0 else |payload| - 1 - PARAMS;
      var s2 := Process(CommandLoaded(s1, payload), dataSize);
      if dataSize == 0 then EndDownload(s2)
      else if s2.mode == DFU_DNLOAD_IDLE then ReceiveFirmware(s2, payload) else s2
  }

  /** The command and the parameters of a data stage; a short one leaves the last parameters as they were. */
  function CommandLoaded(s: State, payload: seq<Octet>): (r: State)
    requires Valid(s) && payload != []
    ensures Valid(r)
  {
    var n := if |payload| - 1 < PARAMS then |payload| - 1 else PARAMS;
    s.(command := payload[0], params := payload[1..1 + n] + s.params[n..])
  }

  function EndDownload(s: State): State
  {
    if s.mode == DFU_DNLOAD_IDLE then s.(mode := DFU_IDLE) else s
  }

  /** Where the firmware starts in a data stage: behind the first packet, and behind the alignment filler. */
  function FirmwareOffset(s: State): nat
  {
    PACKET + if s.startAddr % PACKET == 0 then 0 else s.startAddr % PACKET - 1
  }

  function ReceiveFirmware(s: State, payload: seq<Octet>): (r: State)
    requires Valid(s)
    ensures Valid(r)
  {
    var data := if FirmwareOffset(s) <= |payload| then payload[FirmwareOffset(s)..] else [];
    var n := BytesRemaining(s);
    if s.params[0] == 0x00 then
      var a := Long(s, s.startAddr);
      var t := s.(flash := ProgramWords(s.flash, a, a, 0, n / 2, data));
      if |data| / 2 >= n / 2 then t.(startAddr := s.endAddr) else t
    else
      var k := if |data| < n then |data| else n;
      s.(eeprom := WriteEeprom(s.eeprom, s.startAddr, data[..k]), startAddr := (s.startAddr + k) % 0x1_0000)
  }

  function HandleUpload(s: State): (r: (State, seq<Octet>))
    requires Valid(s)
    ensures Valid(r.0)
  {
    if s.mode != DFU_UPLOAD_IDLE then
      (s, if s.mode == DFU_ERROR && s.params[0] == 0x01 then [s.startAddr % 256, s.startAddr / 256] else [s.response])
    else
      var n := BytesRemaining(s);
      var t := s.(mode := DFU_IDLE);
      if s.params[0] == 0x00 then
        (t.(startAddr := s.endAddr), ReadRange(s.flash, Long(s, s.startAddr), n / 2 * 2))
      else if s.params[0] == 0x02 then
        (t.(startAddr := (s.startAddr + n) % 0x1_0000), ReadEepromRange(s.eeprom, s.startAddr, n))
      else (t, [])
  }

  /** A whole session: the final state, and the answer to every request. */
  function Session(s: State, requests: seq<Request>): (r: (State, seq<seq<Octet>>))
    requires Valid(s)
    ensures Valid(r.0) && |r.1| == |requests|
    decreases |requests|
  {
    if requests == [] then (s, [])
    else
      var (t, answer) := Handle(s, requests[0]);
      var (u, answers) := Session(t, requests[1..]);
      (u, [answer] + answers)
  }

  // ---------------------------------------------------------------------------
  // Secure mode

  /** Erasing the application section blanks it, and leaves the boot section and the buffer alone. */
  lemma {:induction false} EraseFromBlanks(f: Flash, a: nat, boot: nat)
    requires ValidFlash(f) && f.temp == Blank(PageSize(f))
    requires a % PageSize(f) == 0 && boot % PageSize(f) == 0 && a <= boot <= |f.mem|
    ensures EraseFrom(f, a, boot) == f.(mem := SetPage(f.mem, a, Blank(boot - a)))
    decreases boot - a
  {
    hide Write, Erase;
    var size := PageSize(f);
    if a < boot {
      PageBelow(a, boot, size);
      ErasePage(f, a);
      NextPage(a, size);
      var g := f.(mem := SetPage(f.mem, a, Blank(size)));
      EraseFromBlanks(g, a + size, boot);
      BlankOn(f.mem, a, size, boot);
    } else {
      assert SetPage(f.mem, a, Blank(0)) == f.mem;
    }
  }

  lemma {:induction false} BlankOn(mem: seq<Octet>, a: nat, size: nat, boot: nat)
    requires a + size <= boot <= |mem|
    ensures SetPage(SetPage(mem, a, Blank(size)), a + size, Blank(boot - (a + size))) ==
            SetPage(mem, a, Blank(boot - a))
  {
  }

  lemma {:induction false} ErasePage(f: Flash, a: nat)
    requires ValidFlash(f) && f.temp == Blank(PageSize(f)) && a % PageSize(f) == 0 && a + PageSize(f) <= |f.mem|
    ensures Write(Erase(f, a), a) == f.(mem := SetPage(f.mem, a, Blank(PageSize(f))))
  {
    hide Write, Erase;
    var size := PageSize(f);
    assert f == Idle(f.mem, size);
    EraseStarts(f.mem, size, a, 0);
    WriteStores(f.mem, size, a, [], 0);
    assert Padded([], size) == Blank(size);
  }

  /** Locked: secure, idle or in error, nothing loaded into the page buffer. */
  ghost predicate Locked(s: State)
  {
    && Valid(s) && s.secure && !s.waitForExit && (s.mode == DFU_IDLE || s.mode == DFU_ERROR)
    && s.flash.temp == Blank(PageSize(s.flash))
  }

  /** Unlocked by the full erase: the application section is blank, and nothing else has changed. */
  ghost predicate ErasedFrom(s: State, f: Flash)
  {
    s.boot <= |f.mem| && s.flash == f.(mem := SetPage(f.mem, 0, Blank(s.boot)))
  }

  /** No write command but the full erase touches the flash or the lock. */
  lemma {:induction false} WriteMeans(s: State, dataSize: nat)
    requires Valid(s)
    ensures var t := ProcessWrite(s, dataSize);
            && (!IsEraseCommand(s.params) ==> t.flash == s.flash && t.secure == s.secure)
            && (IsEraseCommand(s.params) && s.flash.temp == Blank(PageSize(s.flash)) ==>
                !t.secure && ErasedFrom(t, s.flash))
  {
    hide EraseFrom, SetPage;
    if s.flash.temp == Blank(PageSize(s.flash)) {
      EraseFromBlanks(s.flash, 0, s.boot);
      assert s.boot - 0 == s.boot;
    }
  }

  /** A locked device either stays locked with its flash as it was, or has been erased completely. */
  lemma {:induction false} LockedStep(s: State, request: Request)
    requires Locked(s)
    ensures var t := Handle(s, request).0;
            if t.secure then Locked(t) && t.flash == s.flash else ErasedFrom(t, s.flash)
  {
    hide EraseFrom, ProcessProgram, ProcessDisplay, ReceiveFirmware;
    match request {
      case Download(payload) => LockedDownload(s, payload);
      case _ =>
    }
  }

  lemma {:induction false} LockedDownload(s: State, payload: seq<Octet>)
    requires Locked(s)
    ensures var t := HandleDownload(s, payload);
            && (t.mode == DFU_IDLE || t.mode == DFU_ERROR) && !t.waitForExit
            && if t.secure then t.flash == s.flash else ErasedFrom(t, s.flash)
  {
    hide Process, ReceiveFirmware, ErasedFrom;
    if payload != [] {
      var n := if |payload| - 1 < PARAMS then |payload| - 1 else PARAMS;
      var loaded := s.(command := payload[0], params := payload[1..1 + n] + s.params[n..]);
      LockedProcess(loaded, |payload| - 1 - n);
      if !Process(loaded, |payload| - 1 - n).secure {
        EraseOutlasts(Process(loaded, |payload| - 1 - n), s.flash);
      }
    }
  }

  lemma {:induction false} EraseOutlasts(s: State, f: Flash)
    requires ErasedFrom(s, f)
    ensures ErasedFrom(EndDownload(s), f)
  {
  }

  lemma {:induction false} LockedProcess(s: State, dataSize: nat)
    requires Locked(s)
    ensures var t := Process(s, dataSize);
            && (t.mode == DFU_IDLE || t.mode == DFU_ERROR) && !t.waitForExit
            && if t.secure then t.flash == s.flash else ErasedFrom(t, s.flash)
  {
    hide EraseFrom, ProcessProgram, ProcessDisplay, ReadTable;
    if IsErase(s) {
      EraseFromBlanks(s.flash, 0, s.boot);
      assert SetPage(s.flash.mem, 0, Blank(s.boot - 0)) == SetPage(s.flash.mem, 0, Blank(s.boot));
    }
  }

  /** Two devices that differ in nothing but what the application section held before it was erased. */
  ghost predicate Twins(s: State, t: State)
  {
    && Valid(s) && Valid(t) && t == s.(flash := t.flash)
    && if s.secure then Locked(s) && Locked(t) && SameBoot(s.flash, t.flash, s.boot) else s.flash == t.flash
  }

  ghost predicate SameBoot(f: Flash, g: Flash, boot: nat)
  {
    f.temp == g.temp && SameFrom(f, g, boot)
  }

  lemma {:induction false} TwinsStep(s: State, t: State, request: Request)
    requires Twins(s, t)
    ensures Handle(s, request).1 == Handle(t, request).1
    ensures Twins(Handle(s, request).0, Handle(t, request).0)
  {
    hide HandleDownload, HandleUpload, Twins;
    TwinsValid(s, t);
    if !s.secure {
      UnlockedTwins(s, t);
      UnlockedStep(s, request);
      UnlockedTwins(Handle(s, request).0, Handle(t, request).0);
    } else if request.Download? {
      TwinsAfterDownload(s, t, request.payload);
    } else {
      TwinsOther(s, t, request);
    }
  }

  lemma {:induction false} UnlockedTwins(s: State, t: State)
    requires Valid(s) && Valid(t)
    ensures Twins(s, t) && !s.secure ==> s == t
    ensures s == t && !s.secure ==> Twins(s, t)
  {
  }

  lemma {:induction false} TwinsOther(s: State, t: State, request: Request)
    requires Twins(s, t) && s.secure && !request.Download?
    ensures Handle(s, request).1 == Handle(t, request).1
    ensures Twins(Handle(s, request).0, Handle(t, request).0)
  {
    hide SameBoot, ValidFlash;
    SameBootValid(s, t);
  }

  lemma {:induction false} SameBootValid(s: State, t: State)
    requires Twins(s, t) && s.secure
    ensures SameBoot(s.flash, t.flash, s.boot) && Locked(s) && Locked(t)
  {
  }

  lemma {:induction false} TwinsAfterDownload(s: State, t: State, payload: seq<Octet>)
    requires Twins(s, t) && s.secure
    ensures Twins(HandleDownload(s, payload), HandleDownload(t, payload))
  {
    hide HandleDownload, SameBoot, ValidFlash;
    LockedStep(s, Download(payload));
    LockedStep(t, Download(payload));
    TwinsDownload(s, t, payload);
    if !HandleDownload(s, payload).secure {
      SameErased(s.flash, t.flash, s.boot);
    }
  }

  lemma {:induction false} SameErased(f: Flash, g: Flash, boot: nat)
    requires SameBoot(f, g, boot) && boot <= |f.mem|
    ensures |g.mem| == |f.mem| && f.temp == g.temp
    ensures SetPage(f.mem, 0, Blank(boot)) == SetPage(g.mem, 0, Blank(boot))
  {
  }

  lemma {:induction false} TwinsDownload(s: State, t: State, payload: seq<Octet>)
    requires Twins(s, t) && s.secure
    ensures HandleDownload(t, payload) == HandleDownload(s, payload).(flash := HandleDownload(t, payload).flash)
    ensures HandleDownload(t, payload).boot == s.boot
  {
    hide Process, ReceiveFirmware, SameBoot, ValidFlash;
    if payload != [] {
      var n := if |payload| - 1 < PARAMS then |payload| - 1 else PARAMS;
      var s1 := s.(command := payload[0], params := payload[1..1 + n] + s.params[n..]);
      var t1 := t.(command := payload[0], params := payload[1..1 + n] + t.params[n..]);
      LockedProcess(s1, |payload| - 1 - n);
      TwinsProcess(s1, t1, |payload| - 1 - n);
    }
  }

  lemma {:induction false} TwinsProcess(s: State, t: State, dataSize: nat)
    requires Locked(s) && Locked(t) && t == s.(flash := t.flash)
    ensures Process(t, dataSize) == Process(s, dataSize).(flash := Process(t, dataSize).flash)
    ensures Process(s, dataSize).boot == s.boot
  {
    hide EraseFrom, ProcessProgram, ProcessDisplay, ValidFlash;
  }

  /**
   Over any session, a device that starts locked answers every request the same whatever its application
   section holds: nothing of it can be read before it has been erased.
   */
  lemma {:induction false} SessionHidesFlash(s: State, t: State, requests: seq<Request>)
    requires Twins(s, t)
    ensures Session(s, requests).1 == Session(t, requests).1
    ensures Twins(Session(s, requests).0, Session(t, requests).0)
    decreases |requests|
  {
    hide Handle, Twins, ValidFlash;
    TwinsValid(s, t);
    if requests != [] {
      TwinsStep(s, t, requests[0]);
      TwinsValid(Handle(s, requests[0]).0, Handle(t, requests[0]).0);
      SessionHidesFlash(Handle(s, requests[0]).0, Handle(t, requests[0]).0, requests[1..]);
    }
  }

  lemma {:induction false} TwinsValid(s: State, t: State)
    requires Twins(s, t)
    ensures Valid(s) && Valid(t)
  {
  }

  /** As long as the device is secure, whatever the host requests, the flash is what it was. */
  lemma {:induction false} SessionKeepsFlash(s: State, requests: seq<Request>)
    requires Locked(s)
    ensures var t := Session(s, requests).0;
            t.secure ==> Locked(t) && t.flash == s.flash
    decreases |requests|
  {
    hide Handle;
    if requests != [] {
      var t := Handle(s, requests[0]).0;
      LockedStep(s, requests[0]);
      if t.secure {
        SessionKeepsFlash(t, requests[1..]);
      } else {
        StaysUnlocked(t, requests[1..]);
      }
    }
  }

  /** If a session unlocks the device, it did so by a request after which the application section was blank. */
  lemma {:induction false} SessionErases(s: State, requests: seq<Request>) returns (n: nat)
    requires Locked(s) && !Session(s, requests).0.secure
    ensures 0 < n <= |requests| && UnlocksAt(s, requests, n)
    decreases |requests|
  {
    hide Handle, Locked, ErasedFrom;
    LockedValid(s);
    if requests == [] {
      assert false;
    }
    var t := Handle(s, requests[0]).0;
    LockedStep(s, requests[0]);
    if t.secure {
      n := SessionErases(t, requests[1..]);
      n := n + 1;
      SessionCons(s, requests, n - 1);
      SessionCons(s, requests, n);
    } else {
      n := 1;
      SessionCons(s, requests, 0);
      SessionCons(s, requests, 1);
    }
  }

  /** Before request n the device is secure, and after it its application section is blank and the rest as it was. */
  ghost predicate UnlocksAt(s: State, requests: seq<Request>, n: nat)
    requires Valid(s)
  {
    && 0 < n <= |requests| && Session(s, requests[..n - 1]).0.secure
    && !Session(s, requests[..n]).0.secure && ErasedFrom(Session(s, requests[..n]).0, s.flash)
  }

  lemma {:induction false} LockedValid(s: State)
    requires Locked(s)
    ensures Valid(s) && s.secure
  {
  }

  lemma {:induction false} SessionCons(s: State, requests: seq<Request>, n: nat)
    requires Valid(s) && requests != [] && n <= |requests|
    ensures Session(s, requests[..n]).0 ==
            if n == 0 then s else Session(Handle(s, requests[0]).0, requests[1..][..n - 1]).0
  {
    hide Handle;
    if n > 0 {
      assert requests[..n][1..] == requests[1..][..n - 1];
    }
  }

  lemma {:induction false} SessionNone(s: State)
    requires Valid(s)
    ensures Session(s, []) == (s, [])
  {
  }

  lemma {:induction false} SessionNext(s: State, requests: seq<Request>, request: Request)
    requires Valid(s)
    ensures var (t, answers) := Session(s, requests);
            var (u, answer) := Handle(t, request);
            Session(s, requests + [request]) == (u, answers + [answer])
    decreases |requests|
  {
    hide Handle;
    if requests == [] {
      assert requests + [request] == [request] && [request][1..] == [];
      var (u, answer) := Handle(s, request);
      assert Session(s, [request]) == (Session(u, []).0, [answer] + Session(u, []).1);
      assert [answer] + [] == [] + [answer];
    } else {
      var (t, first) := Handle(s, requests[0]);
      var (u, answers) := Session(t, requests[1..]);
      var (v, last) := Handle(u, request);
      SessionNext(t, requests[1..], request);
      var all := requests + [request];
      assert all[0] == requests[0] && all[1..] == requests[1..] + [request];
      assert Session(s, all) == (v, [first] + (answers + [last]));
      assert [first] + (answers + [last]) == ([first] + answers) + [last];
    }
  }

  lemma {:induction false} StaysUnlocked(s: State, requests: seq<Request>)
    requires Valid(s) && !s.secure
    ensures !Session(s, requests).0.secure
    decreases |requests|
  {
    if requests != [] {
      UnlockedStep(s, requests[0]);
      hide Handle;
      StaysUnlocked(Handle(s, requests[0]).0, requests[1..]);
    }
  }

  lemma {:induction false} UnlockedStep(s: State, request: Request)
    requires Valid(s) && !s.secure
    ensures !Handle(s, request).0.secure
  {
    hide Process, ReceiveFirmware, ReadRange, ReadEepromRange, ValidFlash;
    match request {
      case Download(payload) =>
        if s.waitForExit {
          UnlockedProcess(s, |payload|);
        }
        var s1 := if s.waitForExit then Process(s, |payload|).(waitForExit := false) else s;
        if payload != [] {
          var n := if |payload| - 1 < PARAMS then |payload| - 1 else PARAMS;
          var s2 := s1.(command := payload[0], params := payload[1..1 + n] + s1.params[n..]);
          UnlockedProcess(s2, |payload| - 1 - n);
          ReceiveKeepsLock(Process(s2, |payload| - 1 - n), payload);
        }
      case _ =>
    }
  }

  lemma {:induction false} UnlockedProcess(s: State, dataSize: nat)
    requires Valid(s) && !s.secure
    ensures !Process(s, dataSize).secure
  {
    hide EraseFrom, FirstUsed, ReadTable, ValidFlash, Erase;
  }

  lemma {:induction false} ReceiveKeepsLock(s: State, payload: seq<Octet>)
    requires Valid(s)
    ensures ReceiveFirmware(s, payload).secure == s.secure
  {
    hide ProgramWords, WriteEeprom, ValidFlash;
  }

  // ---------------------------------------------------------------------------
  // Programming and reading back

  lemma {:induction false} RoundUpCovers(n: nat, full: nat, size: nat)
    requires size > 0 && full % size == 0 && full < n
    ensures full + size <= RoundUp(n, size)
  {
    var r := RoundUp(n, size);
    DivModUnique(n - n % size, size, n / size, 0);
    NextPage(n - n % size, size);
    PageBelow(full, r, size);
  }

  /** The loop has programmed full, has loaded rest, and has data[..2 * words] to come: all of it is image. */
  ghost predicate Programming(mem: seq<Octet>, size: nat, base: nat, full: seq<Octet>, rest: seq<Octet>, words: nat,
                              data: seq<Octet>, image: seq<Octet>)
  {
    && Streaming(mem, size, base, full, rest) && size < 512 && words >= 1
    && 2 * words <= |data| && image == full + rest + data[..2 * words]
    && base + RoundUp(|image|, size) <= |mem|
  }

  lemma {:induction false} ProgramStores(mem: seq<Octet>, size: nat, base: nat, full: seq<Octet>, rest: seq<Octet>,
                                         words: nat, data: seq<Octet>, image: seq<Octet>)
    requires Programming(mem, size, base, full, rest, words, data, image)
    ensures base + |full| + size <= |mem|
    ensures var f := InPage(SetPage(mem, base, full), size, base + |full|, rest);
            && ValidFlash(f)
            && ProgramWords(f, base + |full| + |rest|, base + |full|, |rest| / 2, words, data) ==
              Idle(Stored(mem, size, base, image), size)
    decreases words
  {
    hide Fill, Write, Erase, SetPage, Stored, InPage, Idle, ProgramWords;
    RoundUpCovers(|image|, |full|, size);
    var pg, done, lo, hi := base + |full|, SetPage(mem, base, full), data[0], data[1];
    var rest' := rest + [lo, hi];
    EvenRoom(|rest|, size);
    FillAdds(done, size, pg, rest, lo, hi);
    InPageSize(done, size, pg, rest);
    ProgramStep(InPage(done, size, pg, rest), pg + |rest|, pg, |rest|, size, words, data);
    assert words > 1 ==> image == full + rest' + data[2..][..2 * (words - 1)];
    if |rest'| == size {
      PageCompletes(mem, size, base, full, rest');
      if words == 1 {
        assert image == full + rest';
        StreamedIsStored(mem, size, base, full + rest');
      } else {
        RoundUpCovers(|image|, |full + rest'|, size);
        EraseStarts(SetPage(mem, base, full + rest'), size, pg + size, 0);
        assert image == full + rest' + [] + data[2..][..2 * (words - 1)];
        ProgramStores(mem, size, base, full + rest', [], words - 1, data[2..], image);
      }
    } else if words == 1 {
      assert image == full + rest';
      StreamedInPage(mem, size, base, full, rest');
      FlushStores(mem, size, base, full, rest', 0);
    } else {
      ProgramStores(mem, size, base, full, rest', words - 1, data[2..], image);
    }
  }

  lemma {:induction false} InPageSize(mem: seq<Octet>, size: nat, pg: nat, bytes: seq<Octet>)
    requires IsPage(mem, size, pg) && |bytes| <= size
    ensures ValidFlash(InPage(mem, size, pg, bytes)) && PageSize(InPage(mem, size, pg, bytes)) == size
  {
  }

  /** One turn of the loop, for a page of which n bytes are loaded. */
  lemma {:induction false} ProgramStep(f: Flash, curr: nat, page: nat, n: nat, size: nat, words: nat, data: seq<Octet>)
    requires ValidFlash(f) && PageSize(f) == size && size < 512 && n % 2 == 0 && n + 2 <= size
    requires words >= 1 && |data| >= 2
    ensures var filled := Fill(f, curr, data[0], data[1]);
            ProgramWords(f, curr, page, n / 2, words, data) ==
            if words == 1 then Write(filled, page)
            else if n + 2 == size then
              ProgramWords(Erase(Write(filled, page), curr + 2), curr + 2, curr + 2, 0, words - 1, data[2..])
            else ProgramWords(filled, curr + 2, page, (n + 2) / 2, words - 1, data[2..])
  {
    hide Fill, Write, Erase;
    assert (n / 2 + 1) % 256 == (n + 2) / 2;
    assert (n + 2) / 2 == size / 2 <==> n + 2 == size;
  }

  lemma {:induction false} StreamedInPage(mem: seq<Octet>, size: nat, base: nat, full: seq<Octet>, rest: seq<Octet>)
    requires Streaming(mem, size, base, full, rest) && rest != []
    ensures Streamed(mem, size, base, full, rest) == InPage(SetPage(mem, base, full), size, base + |full|, rest)
  {
  }

  /** A memory command with the memory it is for and its two addresses, as a host sends it. */
  function MemoryCommand(command: Octet, memory: Octet, start: nat, end: nat): (r: seq<Octet>)
    requires start < 0x1_0000 && end < 0x1_0000
    ensures |r| == 1 + PARAMS
  {
    [command, memory, start / 256, start % 256, end / 256, end % 256]
  }

  function ProgramRequest(start: nat, filler: seq<Octet>, data: seq<Octet>, suffix: seq<Octet>): Request
    requires data != [] && start + |data| <= 0x1_0000
  {
    Download(MemoryCommand(0x01, 0x00, start, start + |data| - 1) + filler + data + suffix)
  }

  function DisplayRequest(start: nat, n: nat): Request
    requires n > 0 && start + n <= 0x1_0000
  {
    Download(MemoryCommand(0x03, 0x00, start, start + n - 1))
  }

  /** A device that accepts commands, with an empty page buffer. */
  ghost predicate Ready(s: State)
  {
    Valid(s) && !s.secure && !s.waitForExit && s.flash.temp == Blank(PageSize(s.flash)) && PageSize(s.flash) < 512
  }

  /** A range of n bytes: whole words, less than 64 KB, from a packet start on, and inside the memory. */
  ghost predicate InRange(s: State, start: nat, n: nat)
  {
    var a, size := s.flash64 * 0x1_0000 + start, PageSize(s.flash);
    && 0 < n < 0x1_0000 && n % 2 == 0 && start + n <= 0x1_0000 && start % PACKET == 0
    && size > 0 && PageOf(a, size) + RoundUp(a % size + n, size) <= |s.flash.mem|
  }

  lemma {:induction false} ReadyFacts(s: State, start: nat, n: nat)
    requires Ready(s) && InRange(s, start, n)
    ensures Valid(s) && !s.secure && !s.waitForExit
    ensures 0 < n < 0x1_0000 && n % 2 == 0 && start + n <= 0x1_0000 && start % PACKET == 0
  {
  }

  lemma {:induction false} WordOfBytes(w: nat)
    requires w < 0x1_0000
    ensures w / 256 < 256 && Word(w / 256, w % 256) == w
  {
  }

  /** A data stage is a command and the rest of it, which starts with the filler. */
  lemma {:induction false} Parts(head: seq<Octet>, filler: seq<Octet>, data: seq<Octet>, suffix: seq<Octet>)
    ensures var payload := head + filler + data + suffix;
            && payload == head + (filler + data + suffix) && |payload| >= |head| + |filler|
            && payload[|head| + |filler|..] == data + suffix
  {
  }

  /** What a program request does: the page of the first address is erased, and the words are programmed. */
  lemma {:induction false} ProgramRuns(s: State, start: nat, filler: seq<Octet>, data: seq<Octet>, suffix: seq<Octet>)
    requires Ready(s) && InRange(s, start, |data|) && |filler| == PACKET - 1 - PARAMS
    ensures var t := Handle(s, ProgramRequest(start, filler, data, suffix)).0;
            var a := s.flash64 * 0x1_0000 + start;
            && t.flash == ProgramWords(Erase(s.flash, a), a, a, 0, |data| / 2, data + suffix)
            && !t.secure && !t.waitForExit && t.flash64 == s.flash64 && t.eeprom == s.eeprom
            && t.startAddr == t.endAddr == start + |data| - 1
  {
    hide Process, ReceiveFirmware, ProgramWords, Erase, ValidFlash, MemoryCommand, HandleDownload, Ready, InRange;
    ReadyFacts(s, start, |data|);
    var end := start + |data| - 1;
    var head, tail := MemoryCommand(0x01, 0x00, start, end), filler + data + suffix;
    var payload := ProgramRequest(start, filler, data, suffix).payload;
    Parts(head, filler, data, suffix);
    CommandLoads(s, head, tail);
    MemoryCommandBytes(0x01, 0x00, start, end);
    var s1 := s.(command := head[0], params := head[1..]);
    ProgramAccepted(s1, start, end, |tail|);
    ReceiveFlash(Process(s1, |tail|), payload, data, suffix);
  }

  /** Programming from a page start stores the range: its pages hold the data, padded, and all others are as before. */
  lemma {:induction false} ProgramsRange(s: State, start: nat, filler: seq<Octet>, data: seq<Octet>, suffix: seq<Octet>)
    requires Ready(s) && InRange(s, start, |data|) && |filler| == PACKET - 1 - PARAMS
    requires (s.flash64 * 0x1_0000 + start) % PageSize(s.flash) == 0
    ensures var t := Handle(s, ProgramRequest(start, filler, data, suffix)).0;
            var a, size := s.flash64 * 0x1_0000 + start, PageSize(s.flash);
            && a + RoundUp(|data|, size) <= |s.flash.mem|
            && t.flash == Idle(Stored(s.flash.mem, size, a, data), size)
  {
    hide Handle, ProgramWords, Erase, Stored, InPage;
    var a, size, mem := s.flash64 * 0x1_0000 + start, PageSize(s.flash), s.flash.mem;
    ProgramRuns(s, start, filler, data, suffix);
    RoundUpCovers(|data|, 0, size);
    ErasedFirst(mem, size, a, a, s.flash);
    ProgramsAll(mem, size, a, data, suffix);
  }

  /** The state in which a command with all its parameters is processed, and what a longer request does then. */
  lemma {:induction false} CommandLoads(s: State, head: seq<Octet>, tail: seq<Octet>)
    requires Valid(s) && !s.waitForExit && |head| == 1 + PARAMS
    ensures var s1 := s.(command := head[0], params := head[1..]);
            && Valid(s1)
            && (tail == [] ==> HandleDownload(s, head + tail) == EndDownload(Process(s1, 0)))
            && (tail != [] && Process(s1, |tail|).mode == DFU_DNLOAD_IDLE ==>
                HandleDownload(s, head + tail) == ReceiveFirmware(Process(s1, |tail|), head + tail))
  {
    hide Process, ReceiveFirmware, ValidFlash;
    var payload := head + tail;
    assert payload[1..1 + PARAMS] + s.params[PARAMS..] == head[1..];
  }

  lemma {:induction false} MemoryCommandBytes(command: Octet, memory: Octet, start: nat, end: nat)
    requires start < 0x1_0000 && end < 0x1_0000
    ensures var head := MemoryCommand(command, memory, start, end);
            && head[0] == command && head[1..][0] == memory
            && Word(head[1..][1], head[1..][2]) == start && Word(head[1..][3], head[1..][4]) == end
  {
    WordOfBytes(start);
    WordOfBytes(end);
  }

  lemma {:induction false} ProgramAccepted(s: State, start: nat, end: nat, dataSize: nat)
    requires Valid(s) && !s.secure && s.command == 0x01 && s.params[0] == 0x00
    requires Word(s.params[1], s.params[2]) == start && Word(s.params[3], s.params[4]) == end
    ensures Process(s, dataSize) ==
            s.(startAddr := start, endAddr := end, mode := DFU_DNLOAD_IDLE,
              flash := Erase(s.flash, s.flash64 * 0x1_0000 + start))
  {
    hide Erase, ValidFlash;
  }

  lemma {:induction false} ReceiveFlash(s: State, payload: seq<Octet>, data: seq<Octet>, suffix: seq<Octet>)
    requires Valid(s) && s.params[0] == 0x00 && s.startAddr % PACKET == 0
    requires s.endAddr == s.startAddr + |data| - 1 && 0 < |data| < 0x1_0000 && |data| % 2 == 0
    requires |payload| >= PACKET && payload[PACKET..] == data + suffix
    ensures var a := s.flash64 * 0x1_0000 + s.startAddr;
            ReceiveFirmware(s, payload) ==
            s.(startAddr := s.endAddr, flash := ProgramWords(s.flash, a, a, 0, |data| / 2, data + suffix))
  {
    hide ProgramWords, ValidFlash;
    assert BytesRemaining(s) == |data|;
  }

  lemma {:induction false} ProgramsAll(mem: seq<Octet>, size: nat, a: nat, data: seq<Octet>, suffix: seq<Octet>)
    requires size >= 2 && size % 2 == 0 && size < 512 && |mem| % size == 0 && a % size == 0
    requires data != [] && |data| % 2 == 0 && a + RoundUp(|data|, size) <= |mem|
    ensures a + size <= |mem| && ValidFlash(InPage(mem, size, a, []))
    ensures ProgramWords(InPage(mem, size, a, []), a, a, 0, |data| / 2, data + suffix) ==
            Idle(Stored(mem, size, a, data), size)
  {
    hide ProgramWords, Stored, InPage;
    RoundUpCovers(|data|, 0, size);
    assert (data + suffix)[..2 * (|data| / 2)] == data && [] + [] + data == data;
    SetNothing(mem, a);
    ProgramStores(mem, size, a, [], [], |data| / 2, data + suffix, data);
  }

  lemma {:induction false} ErasedFirst(mem: seq<Octet>, size: nat, pg: nat, a: nat, f: Flash)
    requires ValidFlash(f) && f == Idle(mem, size) && pg % size == 0 && pg + size <= |mem| && pg <= a < pg + size
    ensures Erase(f, a) == InPage(mem, size, pg, [])
  {
    EraseStarts(mem, size, pg, a - pg);
  }

  /** A display command selects the range of the next upload. */
  lemma {:induction false} DisplayRuns(s: State, memory: Octet, start: nat, n: nat)
    requires Valid(s) && !s.secure && !s.waitForExit && (memory == 0x00 || memory == 0x02)
    requires 0 < n < 0x1_0000 && start + n <= 0x1_0000
    ensures var t := Handle(s, Download(MemoryCommand(0x03, memory, start, start + n - 1))).0;
            && t == s.(command := 0x03, params := t.params, startAddr := start, endAddr := start + n - 1,
                       mode := DFU_UPLOAD_IDLE)
            && t.params[0] == memory && BytesRemaining(t) == n
  {
    hide Process, ReceiveFirmware, ValidFlash, MemoryCommand, HandleDownload;
    var end := start + n - 1;
    var head := MemoryCommand(0x03, memory, start, end);
    assert head + [] == head;
    CommandLoads(s, head, []);
    MemoryCommandBytes(0x03, memory, start, end);
    DisplayAccepted(s.(command := head[0], params := head[1..]), start, end);
  }

  lemma {:induction false} UploadsFlash(s: State)
    requires Valid(s) && s.mode == DFU_UPLOAD_IDLE && s.params[0] == 0x00
    ensures var (t, answer) := Handle(s, Upload);
            && answer == ReadRange(s.flash, s.flash64 * 0x1_0000 + s.startAddr, BytesRemaining(s) / 2 * 2)
            && t.flash == s.flash && t.eeprom == s.eeprom && t.startAddr == t.endAddr == s.endAddr && t.mode == 2
  {
    hide ReadRange, ReadEepromRange, ValidFlash, BytesRemaining;
  }

  /** Reading a range back returns the bytes of flash, and changes no memory. */
  lemma {:induction false} ReadsRange(s: State, start: nat, n: nat)
    requires Valid(s) && !s.secure && !s.waitForExit
    requires 0 < n < 0x1_0000 && n % 2 == 0 && start + n <= 0x1_0000
    ensures var t := Handle(s, DisplayRequest(start, n)).0;
            var (u, answer) := Handle(t, Upload);
            && answer == ReadRange(s.flash, s.flash64 * 0x1_0000 + start, n)
            && u.flash == s.flash && u.eeprom == s.eeprom && u.startAddr == u.endAddr == start + n - 1
  {
    hide Handle, ReadRange, ValidFlash, MemoryCommand, BytesRemaining;
    DisplayRuns(s, 0x00, start, n);
    UploadsFlash(Handle(s, DisplayRequest(start, n)).0);
  }

  lemma {:induction false} DisplayAccepted(s: State, start: nat, end: nat)
    requires Valid(s) && !s.secure && s.command == 0x03 && (s.params[0] == 0x00 || s.params[0] == 0x02)
    requires Word(s.params[1], s.params[2]) == start && Word(s.params[3], s.params[4]) == end
    ensures Process(s, 0) == s.(startAddr := start, endAddr := end, mode := DFU_UPLOAD_IDLE)
  {
    hide FirstUsed, ValidFlash;
  }

  /** Downloading a range that starts a page and uploading it again returns what was downloaded. */
  lemma {:induction false} RoundTrip(s: State, start: nat, filler: seq<Octet>, data: seq<Octet>, suffix: seq<Octet>)
    requires Ready(s) && InRange(s, start, |data|) && |filler| == PACKET - 1 - PARAMS
    requires (s.flash64 * 0x1_0000 + start) % PageSize(s.flash) == 0
    ensures Uploaded(s, start, filler, data, suffix) == data
  {
    hide Handle, ReadRange, Stored, RoundUp;
    ProgramsRange(s, start, filler, data, suffix);
    ReadsBack(s, start, filler, data, suffix);
    ReadsStored(s.flash.mem, PageSize(s.flash), s.flash64 * 0x1_0000 + start, data);
  }

  lemma {:induction false} ReadsBack(s: State, start: nat, filler: seq<Octet>, data: seq<Octet>, suffix: seq<Octet>)
    requires Ready(s) && InRange(s, start, |data|) && |filler| == PACKET - 1 - PARAMS
    ensures Uploaded(s, start, filler, data, suffix) ==
            ReadRange(Handle(s, ProgramRequest(start, filler, data, suffix)).0.flash, s.flash64 * 0x1_0000 + start,
              |data|)
  {
    hide Handle, ReadRange, RoundUp, ProgramWords;
    ProgramRuns(s, start, filler, data, suffix);
    ReadsRange(Handle(s, ProgramRequest(start, filler, data, suffix)).0, start, |data|);
  }

  /** What the host reads back after it has programmed a range. */
  function Uploaded(s: State, start: nat, filler: seq<Octet>, data: seq<Octet>, suffix: seq<Octet>): seq<Octet>
    requires Valid(s) && data != [] && start + |data| <= 0x1_0000
  {
    var t := Handle(s, ProgramRequest(start, filler, data, suffix)).0;
    var u := Handle(t, DisplayRequest(start, |data|)).0;
    Handle(u, Upload).1
  }

  /** The three requests of a round trip: what comes back, and what the flash holds in the end. */
  lemma {:induction false} UploadsBack(s: State, start: nat, filler: seq<Octet>, data: seq<Octet>, suffix: seq<Octet>)
    requires Ready(s) && InRange(s, start, |data|) && |filler| == PACKET - 1 - PARAMS
    ensures var t := Handle(s, ProgramRequest(start, filler, data, suffix)).0;
            var u := Handle(t, DisplayRequest(start, |data|)).0;
            var (v, answer) := Handle(u, Upload);
            var a, size := s.flash64 * 0x1_0000 + start, PageSize(s.flash);
            && (a % size == 0 || a % size + |data| <= size ==> answer == data)
            && (a % size == 0 ==> a + RoundUp(|data|, size) <= |s.flash.mem|
                                  && v.flash == Idle(Stored(s.flash.mem, size, a, data), size))
  {
    hide Handle, Stored, RoundUp, ReadRange, ProgramWords;
    var a, size := s.flash64 * 0x1_0000 + start, PageSize(s.flash);
    ProgramRuns(s, start, filler, data, suffix);
    ReadsRange(Handle(s, ProgramRequest(start, filler, data, suffix)).0, start, |data|);
    if a % size == 0 {
      RoundTrip(s, start, filler, data, suffix);
      ProgramsRange(s, start, filler, data, suffix);
    } else if a % size + |data| <= size {
      RoundTripInPage(s, start, filler, data, suffix);
    }
  }

  lemma {:induction false} ReadsStored(mem: seq<Octet>, size: nat, a: nat, data: seq<Octet>)
    requires size > 0 && a + RoundUp(|data|, size) <= |mem|
    ensures ReadRange(Idle(Stored(mem, size, a, data), size), a, |data|) == data
  {
    var f := Idle(Stored(mem, size, a, data), size);
    ReadsBytes(f, a, data);
  }

  lemma {:induction false} ReadsBytes(f: Flash, a: nat, data: seq<Octet>)
    requires a + |data| <= |f.mem| && f.mem[a..a + |data|] == data
    ensures ReadRange(f, a, |data|) == data
  {
    forall i | 0 <= i < |data| ensures ReadFlash(f, a + i) == data[i] {
      assert f.mem[a..a + |data|][i] == f.mem[a + i];
    }
  }

  // ---------------------------------------------------------------------------
  // Ranges that do not start a page

  /** A range inside one page: the words are loaded where they belong, and the last one writes the page. */
  lemma {:induction false} ProgramsInPage(mem: seq<Octet>, size: nat, pg: nat, o: nat, loaded: seq<Octet>, words: nat,
                                          data: seq<Octet>)
    requires IsPage(mem, size, pg) && size < 512 && o % 2 == 0 && |loaded| % 2 == 0
    requires words >= 1 && 2 * words <= |data| && o + |loaded| + 2 * words <= size
    ensures var f := InPage(mem, size, pg, Blank(o) + loaded);
            && ValidFlash(f)
            && ProgramWords(f, pg + o + |loaded|, pg + o, |loaded| / 2, words, data) ==
               Idle(SetPage(mem, pg, Padded(Blank(o) + loaded + data[..2 * words], size)), size)
    decreases words
  {
    hide Fill, Write, Erase, SetPage, InPage, Idle, ProgramWords;
    var bytes, lo, hi := Blank(o) + loaded, data[0], data[1];
    InPageSize(mem, size, pg, bytes);
    FillAdds(mem, size, pg, bytes, lo, hi);
    ProgramStep(InPage(mem, size, pg, bytes), pg + o + |loaded|, pg + o, |loaded|, size, words, data);
    assert bytes + [lo, hi] == Blank(o) + (loaded + [lo, hi]);
    if words == 1 {
      assert data[..2] == [lo, hi];
      WriteStores(mem, size, pg, bytes + [lo, hi], o);
    } else {
      ProgramsInPage(mem, size, pg, o, loaded + [lo, hi], words - 1, data[2..]);
      assert Blank(o) + (loaded + [lo, hi]) + data[2..][..2 * (words - 1)] == bytes + data[..2 * words];
    }
  }

  lemma {:induction false} RoundTripInPage(s: State, start: nat, filler: seq<Octet>, data: seq<Octet>,
                                           suffix: seq<Octet>)
    requires Ready(s) && InRange(s, start, |data|) && |filler| == PACKET - 1 - PARAMS
    requires (s.flash64 * 0x1_0000 + start) % PageSize(s.flash) + |data| <= PageSize(s.flash)
    ensures Uploaded(s, start, filler, data, suffix) == data
  {
    hide Handle, ProgramWords, Erase, ReadRange, RoundUp, Uploaded;
    var a, size := s.flash64 * 0x1_0000 + start, PageSize(s.flash);
    ProgramRuns(s, start, filler, data, suffix);
    ReadsBack(s, start, filler, data, suffix);
    RoundUpCovers(a % size + |data|, 0, size);
    DivModUnique(a, 2, s.flash64 * 0x8000 + start / PACKET * 16, 0);
    InPageReadsBack(s.flash, a, data, suffix);
  }

  lemma {:induction false} InPageReadsBack(f: Flash, a: nat, data: seq<Octet>, suffix: seq<Octet>)
    requires ValidFlash(f) && f.temp == Blank(PageSize(f)) && PageSize(f) < 512
    requires a % 2 == 0 && data != [] && |data| % 2 == 0 && a % PageSize(f) + |data| <= PageSize(f)
    requires PageOf(a, PageSize(f)) + PageSize(f) <= |f.mem|
    ensures ReadRange(ProgramWords(Erase(f, a), a, a, 0, |data| / 2, data + suffix), a, |data|) == data
  {
    hide ProgramWords, Erase, ReadRange, InPage;
    var size, mem := PageSize(f), f.mem;
    var pg, o := PageOf(a, size), a % size;
    DivModUnique(pg, size, a / size, 0);
    ErasedFirst(mem, size, pg, a, f);
    BlankStart(mem, size, pg, o);
    EvenOffset(a, size);
    ProgramsInPage(mem, size, pg, o, [], |data| / 2, data + suffix);
    assert (data + suffix)[..2 * (|data| / 2)] == data && Blank(o) + [] == Blank(o);
    var stored := SetPage(mem, pg, Padded(Blank(o) + data, size));
    assert stored[a..a + |data|] == data;
    ReadsBytes(Idle(stored, size), a, data);
  }

  lemma {:induction false} BlankStart(mem: seq<Octet>, size: nat, pg: nat, o: nat)
    requires pg + size <= |mem| && o <= size
    ensures InPage(mem, size, pg, []) == InPage(mem, size, pg, Blank(o) + [])
  {
    assert Padded([], size) == Padded(Blank(o) + [], size);
  }

  lemma {:induction false} EvenOffset(a: nat, size: nat)
    requires a % 2 == 0 && size > 0 && size % 2 == 0
    ensures a % size % 2 == 0
  {
    var q, h := a / size, size / 2;
    assert a % size == a - size * q && size == 2 * h;
    assert size * q == 2 * (h * q);
  }

  // ---------------------------------------------------------------------------
  // Ranges that leave the page they start in

  lemma {:induction false} AndLaws(a: Octet)
    ensures And(BLANK, a) == a && And(a, BLANK) == a && And(a, 0) == 0
  {
    ProgramBlank([a]);
    assert Programmed(Blank(1), [a])[0] == And(BLANK, a);
    AndFull(a, 8);
  }

  lemma {:induction false} AndFull(a: nat, k: nat)
    requires a < Pow2(k)
    ensures And(a, Pow2(k) - 1) == a
  {
    if a > 0 {
      var half := Pow2(k - 1);
      var n: nat := 2 * half - 1;
      assert Pow2(k) == 2 * half && n / 2 == half - 1 && n % 2 == 1;
      AndFull(a / 2, k - 1);
      assert And(a, n) == 2 * And(a / 2, n / 2) + a % 2;
    }
  }

  /** One of the three values that the first byte of the next page can end up with. */
  predicate OneOf(b: Octet, m: Octet)
  {
    b == m || b == BLANK || b == 0
  }

  /** Once only zeros are left to program, no other value can reach address x, the start of a page. */
  lemma {:induction false} ZerosOnly(f: Flash, curr: nat, page: nat, inPage: Octet, words: nat, data: seq<Octet>,
                                     x: nat, m: Octet)
    requires ValidFlash(f) && x < |f.mem| && x % PageSize(f) == 0
    requires OneOf(f.mem[x], m) && (f.temp[0] == 0 || f.temp[0] == BLANK)
    requires forall i :: 0 <= i < |data| && i < 2 * words ==> data[i] == 0
    ensures OneOf(ProgramWords(f, curr, page, inPage, words, data).mem[x], m)
    decreases words
  {
    hide Fill, Write, Erase;
    if words > 0 && |data| >= 2 {
      var filled := Fill(f, curr, 0, 0);
      FillAt(f, curr, x);
      WriteAt(filled, page, x, m);
      var written := Write(filled, page);
      EraseAt(written, curr + 2, x);
      var n := (inPage + 1) % 256;
      if words > 1 {
        if n == PageSize(f) / 2 {
          ZerosOnly(Erase(written, curr + 2), curr + 2, curr + 2, 0, words - 1, data[2..], x, m);
        } else {
          ZerosOnly(filled, curr + 2, page, n, words - 1, data[2..], x, m);
        }
      }
    }
  }

  lemma {:induction false} FillAt(f: Flash, a: nat, x: nat)
    requires ValidFlash(f) && x < |f.mem| && (f.temp[0] == 0 || f.temp[0] == BLANK)
    ensures var g := Fill(f, a, 0, 0); g.mem == f.mem && (g.temp[0] == 0 || g.temp[0] == BLANK)
  {
  }

  lemma {:induction false} WriteAt(f: Flash, a: nat, x: nat, m: Octet)
    requires ValidFlash(f) && x < |f.mem| && x % PageSize(f) == 0
    requires OneOf(f.mem[x], m) && (f.temp[0] == 0 || f.temp[0] == BLANK)
    ensures OneOf(Write(f, a).mem[x], m) && Write(f, a).temp[0] == BLANK
  {
    var size := PageSize(f);
    var pg := PageOf(a, size);
    DivModUnique(pg, size, a / size, 0);
    AndLaws(f.mem[x]);
    if pg <= x < pg + size {
      SamePage(pg, x, size);
    }
  }

  lemma {:induction false} SamePage(pg: nat, x: nat, size: nat)
    requires size > 0 && pg % size == 0 && x % size == 0 && pg <= x < pg + size
    ensures x == pg
  {
    DivModUnique(x, size, pg / size, x - pg);
  }

  lemma {:induction false} EraseAt(f: Flash, a: nat, x: nat)
    requires ValidFlash(f) && x < |f.mem|
    ensures Erase(f, a).temp == f.temp && (Erase(f, a).mem[x] == f.mem[x] || Erase(f, a).mem[x] == BLANK)
  {
  }

  /** While the first page is being loaded, the next page is untouched; what follows the first page is zeros. */
  lemma {:induction false} FirstPageOnly(f: Flash, a: nat, j: nat, words: nat, data: seq<Octet>, x: nat)
    requires ValidFlash(f) && PageSize(f) < 512 && x < |f.mem| && x == PageOf(a, PageSize(f)) + PageSize(f)
    requires j < PageSize(f) / 2
    requires forall i :: PageSize(f) - 2 * j <= i < |data| && i < 2 * words ==> data[i] == 0
    ensures OneOf(ProgramWords(f, a + 2 * j, a, j, words, data).mem[x], f.mem[x])
    decreases words
  {
    hide Fill, Write, Erase, ProgramWords, OneOf;
    var size := PageSize(f);
    ProgramNothing(f, a + 2 * j, a, j, words, data);
    Unchanged(f.mem[x], f.mem[x]);
    if words > 0 && |data| >= 2 {
      ProgramStep(f, a + 2 * j, a, 2 * j, size, words, data);
      var filled := Fill(f, a + 2 * j, data[0], data[1]);
      OtherPage(f, a, a + 2 * j, data[0], data[1], x);
      var written := Write(filled, a);
      if words > 1 {
        if j + 1 == size / 2 {
          var erased := Erase(written, a + 2 * j + 2);
          EraseAt(written, a + 2 * j + 2, x);
          NextPageStart(a, size, x);
          Unchanged(erased.mem[x], f.mem[x]);
          ZerosOnly(erased, a + 2 * j + 2, a + 2 * j + 2, 0, words - 1, data[2..], x, f.mem[x]);
        } else {
          FirstPageOnly(filled, a, j + 1, words - 1, data[2..], x);
        }
      }
    }
  }

  lemma {:induction false} ProgramNothing(f: Flash, curr: nat, page: nat, inPage: Octet, words: nat, data: seq<Octet>)
    requires ValidFlash(f)
    ensures words == 0 || |data| < 2 ==> ProgramWords(f, curr, page, inPage, words, data) == f
  {
  }

  lemma {:induction false} Unchanged(b: Octet, m: Octet)
    ensures b == m || b == BLANK ==> OneOf(b, m)
    ensures OneOf(m, m)
  {
  }

  lemma {:induction false} OtherPage(f: Flash, a: nat, curr: nat, lo: Octet, hi: Octet, x: nat)
    requires ValidFlash(f) && x < |f.mem| && x == PageOf(a, PageSize(f)) + PageSize(f)
    ensures var filled := Fill(f, curr, lo, hi);
            && filled.mem == f.mem
            && Write(filled, a).mem[x] == f.mem[x] && Write(filled, a).temp[0] == BLANK
  {
  }

  lemma {:induction false} NextPageStart(a: nat, size: nat, x: nat)
    requires size > 0 && x == PageOf(a, size) + size
    ensures x % size == 0
  {
    DivModUnique(x, size, a / size + 1, 0);
  }

  /** Data that a range which leaves its first page loses: zeros, but for the first byte of the next page. */
  function Marked(n: nat, k: nat, d: Octet): (r: seq<Octet>)
    ensures |r| == n
  {
    seq<Octet>(n, i => if i == k then d else 0)
  }

  lemma {:induction false} CrossingLoses(s: State, start: nat, filler: seq<Octet>, suffix: seq<Octet>,
                                         n: nat) returns (data: seq<Octet>)
    requires Ready(s) && InRange(s, start, n) && |filler| == PACKET - 1 - PARAMS
    requires var o := (s.flash64 * 0x1_0000 + start) % PageSize(s.flash);
             o > 0 && o + n > PageSize(s.flash)
    ensures |data| == n && Uploaded(s, start, filler, data, suffix) != data
  {
    hide Handle, ProgramWords, Erase, RoundUp, Uploaded, ReadRange, Marked;
    var a, size := s.flash64 * 0x1_0000 + start, PageSize(s.flash);
    var o, x := a % size, PageOf(a, size) + size;
    CrossingRoom(o + n, size, PageOf(a, size), |s.flash.mem|);
    data := Marked(n, size - o, if s.flash.mem[x] == 1 then 2 else 1);
    ProgramRuns(s, start, filler, data, suffix);
    ReadsBack(s, start, filler, data, suffix);
    LosesByte(s.flash, a, n, suffix, if s.flash.mem[x] == 1 then 2 else 1);
  }

  /** The first byte of the next page keeps its old value or becomes blank or zero, so any other is lost. */
  lemma {:induction false} LosesByte(f: Flash, a: nat, n: nat, suffix: seq<Octet>, d: Octet)
    requires ValidFlash(f) && PageSize(f) < 512 && n % 2 == 0
    requires a % PageSize(f) > 0 && a % PageSize(f) + n > PageSize(f)
    requires PageOf(a, PageSize(f)) + PageSize(f) < |f.mem|
    requires d != f.mem[PageOf(a, PageSize(f)) + PageSize(f)] && d != BLANK && d != 0
    ensures var data := Marked(n, PageSize(f) - a % PageSize(f), d);
            ReadRange(ProgramWords(Erase(f, a), a, a, 0, n / 2, data + suffix), a, n) != data
  {
    hide ProgramWords, Erase, ReadRange;
    var size := PageSize(f);
    var x, k := PageOf(a, size) + size, size - a % size;
    var data := Marked(n, k, d);
    ErasesOwnPage(f, a, x);
    forall i | size <= i < |data + suffix| && i < 2 * (n / 2) ensures (data + suffix)[i] == 0 {
      assert (data + suffix)[i] == data[i];
    }
    FirstPageOnly(Erase(f, a), a, 0, n / 2, data + suffix, x);
    var g := ProgramWords(Erase(f, a), a, a, 0, n / 2, data + suffix);
    ReadRangeAt(g, a, n, k);
    assert data[k] != g.mem[x];
  }

  lemma {:induction false} ReadRangeAt(f: Flash, a: nat, n: nat, k: nat)
    requires k < n && a + k < |f.mem|
    ensures ReadRange(f, a, n)[k] == f.mem[a + k]
  {
    assert ReadRange(f, a, n)[k] == ReadFlash(f, a + k);
  }

  lemma {:induction false} CrossingRoom(n: nat, size: nat, pg: nat, limit: nat)
    requires size > 0 && n > size && pg + RoundUp(n, size) <= limit
    ensures pg + size < limit
  {
  }

  lemma {:induction false} ErasesOwnPage(f: Flash, a: nat, x: nat)
    requires ValidFlash(f) && x < |f.mem| && x == PageOf(a, PageSize(f)) + PageSize(f)
    ensures Erase(f, a).mem[x] == f.mem[x]
  {
  }

  /**
   Programming a range and reading it back is faithful for all data exactly if the range starts a page
   or stays inside the page in which it starts.
   */
  lemma {:induction false} RoundTripIff(s: State, start: nat, filler: seq<Octet>, suffix: seq<Octet>, n: nat)
    requires Ready(s) && InRange(s, start, n) && |filler| == PACKET - 1 - PARAMS
    ensures var o := (s.flash64 * 0x1_0000 + start) % PageSize(s.flash);
            (forall data: seq<Octet> :: |data| == n ==> Uploaded(s, start, filler, data, suffix) == data)
            <==> (o == 0 || o + n <= PageSize(s.flash))
  {
    hide Uploaded, RoundUp;
    var o := (s.flash64 * 0x1_0000 + start) % PageSize(s.flash);
    if o == 0 || o + n <= PageSize(s.flash) {
      forall data: seq<Octet> | |data| == n ensures Uploaded(s, start, filler, data, suffix) == data {
        if o == 0 {
          RoundTrip(s, start, filler, data, suffix);
        } else {
          RoundTripInPage(s, start, filler, data, suffix);
        }
      }
    } else {
      var data := CrossingLoses(s, start, filler, suffix, n);
    }
  }
}
