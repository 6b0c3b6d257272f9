/** The DFU-class boot loader itself: its variables, and the handlers that update them. */
module DfuLoader {
  import opened Flash
  import opened Dfu
  import opened DfuHost

  class Loader {
    var isSecure: bool
    var runBootloader: bool
    var waitForExit: bool
    var watchdogStarted: bool
    var dfuState: Octet
    var dfuStatus: Octet
    var command: Octet
    var params: seq<Octet>
    var responseByte: Octet
    var appStart: nat
    var flash64KBPage: Octet
    var startAddr: nat
    var endAddr: nat
    const bootStart: nat
    const info: Info
    var flash: Flash
    var eeprom: seq<Octet>

    ghost function State(): State
      reads this
    {
      Dfu.State.State(isSecure, runBootloader, waitForExit, watchdogStarted, dfuState, dfuStatus, command, params,
                      responseByte, appStart, flash64KBPage, startAddr, endAddr, bootStart, info, flash, eeprom)
    }

    constructor (secure: bool, bootStart: nat, info: Info, flash: Flash, eeprom: seq<Octet>)
      requires ValidFlash(flash) && flash.temp == Blank(PageSize(flash))
      requires bootStart % PageSize(flash) == 0 && bootStart <= |flash.mem|
      ensures Valid(State()) && this.flash == flash && this.bootStart == bootStart && this.info == info
      ensures this.eeprom == eeprom
      ensures secure ==> Locked(State())
      ensures !secure && PageSize(flash) < 512 ==> Ready(State())
      // A host asks for status and response, and programs from page 0; the application starts at its reset vector.
      ensures isSecure == secure && runBootloader && !watchdogStarted && dfuState == 2 && dfuStatus == 0
      ensures flash64KBPage == startAddr == endAddr == appStart == 0 && command == responseByte == 0
      ensures params == [0, 0, 0, 0, 0]
    {
      isSecure, runBootloader, waitForExit, watchdogStarted := secure, true, false, false;
      dfuState, dfuStatus, command, params, responseByte := DFU_IDLE, STATUS_OK, 0, [0, 0, 0, 0, 0], 0;
      appStart, flash64KBPage, startAddr, endAddr := 0, 0, 0, 0;
      this.bootStart, this.info, this.flash, this.eeprom := bootStart, info, flash, eeprom;
    }

    method LoadStartEndAddresses()
      requires |params| == PARAMS
      modifies this
      ensures State() == WithAddresses(old(State()))
    {
      startAddr := Word(params[1], params[2]);
      endAddr := Word(params[3], params[4]);
    }

    method ProcessMemProgCommand()
      requires Valid(State())
      modifies this
      ensures State() == ProcessProgram(old(State()))
    {
      if params[0] == 0x00 || params[0] == 0x01 {
        LoadStartEndAddresses();
        if params[0] == 0x00 {
          flash := Erase(flash, flash64KBPage * 0x1_0000 + startAddr);
        }
        dfuState := DFU_DNLOAD_IDLE;
      }
    }

    method ProcessMemReadCommand()
      requires Valid(State())
      modifies this
      ensures State() == ProcessDisplay(old(State()))
    {
      if params[0] == 0x00 || params[0] == 0x02 {
        LoadStartEndAddresses();
        dfuState := DFU_UPLOAD_IDLE;
      } else if params[0] == 0x01 {
        var curr := 0;
        while curr < bootStart
          invariant State() == old(State()) && curr <= bootStart
          invariant FirstUsed(flash, curr, bootStart) == FirstUsed(flash, 0, bootStart)
        {
          if ReadFlash(flash, curr) != BLANK {
            flash64KBPage := curr / 0x1_0000 % 256;
            startAddr := curr % 0x1_0000;
            dfuState := DFU_ERROR;
            dfuStatus := ERR_CHECK_ERASED;
            break;
          }
          curr := curr + 1;
        }
      }
    }

    method EraseApplication()
      requires Valid(State())
      modifies this`flash
      ensures flash == EraseFrom(old(flash), 0, bootStart)
    {
      hide Erase, Write;
      var curr := 0;
      while curr < bootStart
        invariant ValidFlash(flash) && PageSize(flash) == PageSize(old(flash))
        invariant EraseFrom(flash, curr, bootStart) == EraseFrom(old(flash), 0, bootStart)
      {
        flash := Erase(flash, curr);
        flash := Write(flash, curr);
        curr := curr + PageSize(flash);
      }
    }

    method StartApplication(dataSize: nat)
      requires Valid(State()) && params[0] == 0x03
      modifies this`waitForExit, this`appStart, this`watchdogStarted, this`runBootloader
      ensures State() == ProcessWrite(old(State()), dataSize)
    {
      hide ValidFlash;
      waitForExit := true;
      if dataSize > 0 {
        if params[1] == 0x01 {
          appStart := Word(params[3], params[4]);
        }
      } else if params[1] == 0x00 {
        watchdogStarted := true;
      } else {
        runBootloader := false;
      }
    }

    method ProcessWriteCommand(dataSize: nat)
      requires Valid(State())
      modifies this
      ensures State() == ProcessWrite(old(State()), dataSize)
      // Nothing but the full erase touches the flash or the lock, and it leaves the application section blank.
      ensures !IsEraseCommand(params) ==> flash == old(flash) && isSecure == old(isSecure)
      ensures IsEraseCommand(params) && old(flash).temp == Blank(PageSize(old(flash))) ==>
        !isSecure && ErasedFrom(State(), old(flash))
    {
      hide EraseFrom, ErasedFrom, ValidFlash;
      WriteMeans(State(), dataSize);
      if params[0] == 0x03 {
        StartApplication(dataSize);
      } else if params[0] == 0x00 && params[1] == 0xFF {
        EraseApplication();
        isSecure := false;
      }
    }

    method ProcessReadCommand()
      requires Valid(State())
      modifies this
      ensures State() == old(State()).(response := ReadTable(old(State())))
    {
      var index := params[1];
      if params[0] == 0x00 {
        responseByte := LookUp(info.bootloader, index, info.stray);
      } else if params[0] == 0x01 {
        if index < 0x60 {
          responseByte := LookUp(info.signature, index as int - 0x30, info.stray);
        } else {
          responseByte := LookUp(info.signature, index as int - 0x60 + 3, info.stray);
        }
      }
    }

    method ProcessBootloaderCommand(dataSize: nat)
      requires Valid(State())
      modifies this
      ensures State() == Process(old(State()), dataSize)
      // In secure mode nothing but the full erase has an effect on the flash, and it unlocks.
      ensures old(Locked(State())) ==> if isSecure then flash == old(flash) else ErasedFrom(State(), old(flash))
    {
      hide EraseFrom, FirstUsed, Erase, Locked, ErasedFrom;
      if Locked(State()) {
        LockedProcess(State(), dataSize);
      }
      if isSecure {
        if !((command == COMMAND_WRITE && params[0] == 0x00 && params[1] == 0xFF) || command == COMMAND_READ) {
          dfuState := DFU_ERROR;
          dfuStatus := ERR_WRITE;
          return;
        }
      }
      match command {
        case 1 => ProcessMemProgCommand();
        case 3 => ProcessMemReadCommand();
        case 4 => ProcessWriteCommand(dataSize);
        case 5 => ProcessReadCommand();
        case 6 =>
          if params[0] == 0x03 && params[1] == 0x00 {
            flash64KBPage := params[2];
          }
        case _ =>
      }
    }

    /** Programs words from the data stage; finished if it did not end early. */
    method WriteFlash(data: seq<Octet>, words: nat) returns (finished: bool)
      requires Valid(State())
      modifies this`flash
      ensures var a := Long(old(State()), startAddr);
              flash == ProgramWords(old(flash), a, a, 0, words, data)
      ensures finished == (|data| / 2 >= words)
    {
      hide Fill, Write, Erase;
      var curr: nat := flash64KBPage * 0x1_0000 + startAddr;
      var page: nat, inPage, remaining: nat, pos := curr, 0, words, 0;
      while remaining > 0
        invariant ValidFlash(flash) && PageSize(flash) == PageSize(old(flash)) && |flash.mem| == |old(flash.mem)|
        invariant 0 <= inPage < 256 && remaining <= words && pos == 2 * (words - remaining) <= |data|
        invariant ProgramWords(flash, curr, page, inPage, remaining, data[pos..]) ==
                  ProgramWords(old(flash), Long(old(State()), startAddr), Long(old(State()), startAddr), 0, words, data)
      {
        if pos + 2 > |data| {
          return false;
        }
        assert data[pos..][2..] == data[pos + 2..];
        remaining := remaining - 1;
        flash := Fill(flash, curr, data[pos], data[pos + 1]);
        pos := pos + 2;
        inPage := (inPage + 1) % 256;
        curr := curr + 2;
        if inPage == PageSize(flash) / 2 || remaining == 0 {
          flash := Write(flash, page);
          if remaining > 0 {
            page := curr;
            inPage := 0;
            flash := Erase(flash, curr);
          }
        }
      }
      finished := true;
    }

    method WriteEepromBytes(data: seq<Octet>, n: nat)
      requires |data| == n && startAddr < 0x1_0000
      modifies this`eeprom, this`startAddr
      ensures eeprom == WriteEeprom(old(eeprom), old(startAddr), data)
      ensures startAddr == (old(startAddr) + n) % 0x1_0000
    {
      hide WriteEeprom;
      assert data[0..] == data;
      for i := 0 to n
        invariant startAddr == (old(startAddr) + i) % 0x1_0000
        invariant WriteEeprom(eeprom, startAddr, data[i..]) == WriteEeprom(old(eeprom), old(startAddr), data)
      {
        WriteEepromNext(eeprom, startAddr, data, i);
        if startAddr < |eeprom| {
          eeprom := eeprom[startAddr := data[i]];
        }
        startAddr := (startAddr + 1) % 0x1_0000;
      }
      WriteEepromEnd(eeprom, startAddr, data);
    }

    method ProcessFirmware(payload: seq<Octet>)
      requires Valid(State())
      modifies this
      ensures State() == ReceiveFirmware(old(State()), payload)
    {
      hide ProgramWords, WriteEeprom;
      var offset := PACKET + if startAddr % PACKET == 0 then 0 else startAddr % PACKET - 1;
      var data := if offset <= |payload| then payload[offset..] else [];
      var bytesRemaining := (endAddr - startAddr + 1) % 0x1_0000;
      if params[0] == 0x00 {
        var finished := WriteFlash(data, bytesRemaining / 2);
        if finished {
          startAddr := endAddr;
        }
      } else {
        var n := if |data| < bytesRemaining then |data| else bytesRemaining;
        WriteEepromBytes(data[..n], n);
      }
    }

    /** Loads the command and its parameters from a data stage, and processes it. */
    method TakeCommand(payload: seq<Octet>) returns (dataSize: nat)
      requires Valid(State()) && payload != []
      modifies this
      ensures dataSize == if |payload| - 1 < PARAMS then 0 else |payload| - 1 - PARAMS
      ensures State() == Process(CommandLoaded(old(State()), payload), dataSize)
    {
      hide Process, ValidFlash;
      command := payload[0];
      var n := if |payload| - 1 < PARAMS then |payload| - 1 else PARAMS;
      params := payload[1..1 + n] + params[n..];
      dataSize := |payload| - 1 - n;
      assert State() == CommandLoaded(old(State()), payload);
      ProcessBootloaderCommand(dataSize);
    }

    method DownloadRequest(payload: seq<Octet>)
      requires Valid(State())
      modifies this
      ensures State() == HandleDownload(old(State()), payload)
    {
      hide Process, ReceiveFirmware, ValidFlash, CommandLoaded;
      var dataSize := |payload|;
      if waitForExit {
        ProcessBootloaderCommand(dataSize);
        waitForExit := false;
      }
      if dataSize > 0 {
        dataSize := TakeCommand(payload);
      }
      if dfuState == DFU_DNLOAD_IDLE {
        if dataSize == 0 {
          dfuState := DFU_IDLE;
        } else {
          ProcessFirmware(payload);
        }
      }
    }

    method UploadRequest() returns (answer: seq<Octet>)
      requires Valid(State())
      modifies this
      ensures (State(), answer) == HandleUpload(old(State()))
    {
      if dfuState != DFU_UPLOAD_IDLE {
        if dfuState == DFU_ERROR && params[0] == 0x01 {
          answer := [startAddr % 256, startAddr / 256];
        } else {
          answer := [responseByte];
        }
      } else {
        var bytesRemaining := (endAddr - startAddr + 1) % 0x1_0000;
        if params[0] == 0x00 {
          answer := ReadWords(flash64KBPage * 0x1_0000 + startAddr, bytesRemaining / 2);
          startAddr := endAddr;
        } else if params[0] == 0x02 {
          answer := ReadEepromBytes(bytesRemaining);
        } else {
          answer := [];
        }
        dfuState := DFU_IDLE;
      }
    }

    method ReadWords(start: nat, words: nat) returns (answer: seq<Octet>)
      ensures answer == ReadRange(flash, start, words * 2)
    {
      answer := [];
      for i := 0 to words
        invariant answer == ReadRange(flash, start, i * 2)
      {
        answer := answer + [ReadFlash(flash, start + 2 * i), ReadFlash(flash, start + 2 * i + 1)];
      }
    }

    method ReadEepromBytes(n: nat) returns (answer: seq<Octet>)
      requires startAddr < 0x1_0000
      modifies this`startAddr
      ensures answer == ReadEepromRange(eeprom, old(startAddr), n)
      ensures startAddr == (old(startAddr) + n) % 0x1_0000
    {
      answer := [];
      for i := 0 to n
        invariant startAddr == (old(startAddr) + i) % 0x1_0000
        invariant answer == ReadEepromRange(eeprom, old(startAddr), i)
      {
        answer := answer + [ReadEeprom(eeprom, startAddr)];
        startAddr := (startAddr + 1) % 0x1_0000;
      }
    }

    /** Handles one class request to the DFU interface. */
    method ControlRequest(request: Request) returns (answer: seq<Octet>)
      requires Valid(State())
      modifies this
      ensures (State(), answer) == Handle(old(State()), request)
    {
      hide HandleDownload, HandleUpload;
      answer := [];
      match request {
        case Download(payload) => DownloadRequest(payload);
        case Upload => answer := UploadRequest();
        case GetStatus => answer := [dfuStatus, 0, 0, 0, dfuState, 0];
        case ClearStatus => dfuStatus := STATUS_OK;
        case GetState => answer := [dfuState];
        case Abort => dfuState := DFU_IDLE;
        case Other =>
      }
    }

    /** Serves a whole session. */
    method Serve(requests: seq<Request>) returns (answers: seq<seq<Octet>>)
      requires Valid(State())
      modifies this
      ensures (State(), answers) == Session(old(State()), requests)
      // A locked device keeps its flash until a request erases it, and answers alike whatever it holds.
      ensures old(Locked(State())) && isSecure ==> flash == old(flash)
      ensures old(Locked(State())) && !isSecure ==> exists n :: UnlocksAt(old(State()), requests, n)
      ensures forall t: State | Twins(old(State()), t) :: Session(t, requests).1 == answers
    {
      hide Handle, Session, ValidFlash, Locked, UnlocksAt;
      answers := [];
      SessionNone(State());
      for i := 0 to |requests|
        invariant Valid(State()) && (State(), answers) == Session(old(State()), requests[..i])
      {
        var answer := ControlRequest(requests[i]);
        assert requests[..i + 1] == requests[..i] + [requests[i]];
        SessionNext(old(State()), requests[..i], requests[i]);
        answers := answers + [answer];
      }
      assert requests[..|requests|] == requests;
      if old(Locked(State())) {
        SessionKeepsFlash(old(State()), requests);
        if !isSecure {
          ghost var n := SessionErases(old(State()), requests);
        }
      }
      forall t: State | Twins(old(State()), t) ensures Session(t, requests).1 == answers {
        SessionHidesFlash(old(State()), t, requests);
      }
    }

    /** Programs a range, and reads it back. */
    method ProgramAndRead(start: nat, filler: seq<Octet>, data: seq<Octet>, suffix: seq<Octet>)
      returns (answer: seq<Octet>)
      requires Ready(State()) && InRange(State(), start, |data|) && |filler| == PACKET - 1 - PARAMS
      modifies this
      ensures var size := PageSize(old(flash));
              var a := old(flash64KBPage) * 0x1_0000 + start;
              && (a % size == 0 || a % size + |data| <= size ==> answer == data)
              && (a % size == 0 ==> flash == Idle(Stored(old(flash.mem), size, a, data), size))
    {
      hide Handle, Ready, InRange, Stored;
      ReadyFacts(State(), start, |data|);
      ghost var s := State();
      var nothing := ControlRequest(ProgramRequest(start, filler, data, suffix));
      nothing := ControlRequest(DisplayRequest(start, |data|));
      answer := ControlRequest(Upload);
      UploadsBack(s, start, filler, data, suffix);
    }

    /** Programs a range of the EEPROM, and reads it back. */
    method ProgramAndReadEeprom(start: nat, filler: seq<Octet>, data: seq<Octet>, suffix: seq<Octet>)
      returns (answer: seq<Octet>)
      requires Accepts(State()) && InEeprom(State(), start, |data|) && |filler| == FillerSize(start)
      modifies this
      ensures answer == data && flash == old(flash) && |eeprom| == old(|eeprom|)
      ensures forall i :: 0 <= i < |eeprom| ==>
        eeprom[i] == if start <= i < start + |data| then data[i - start] else old(eeprom)[i]
    {
      hide Handle, Accepts;
      AcceptsValid(State());
      ghost var s := State();
      var nothing := ControlRequest(ProgramEeprom(start, filler, data, suffix));
      nothing := ControlRequest(DisplayEeprom(start, |data|));
      answer := ControlRequest(Upload);
      EepromRoundTrip(s, start, filler, data, suffix);
    }
  }
}
