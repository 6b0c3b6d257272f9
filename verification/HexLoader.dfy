/** The printer-class boot loader itself: the parser's variables, and the method that updates them. */
module HexLoader {
  import opened Flash
  import opened HexParser
  import opened HexTrace
  import opened HexBase
  import opened HexOdd
  import opened BootGuard

  class Loader {
    var phase: Phase
    var prevData: Octet
    var data: Octet
    var readMsb: bool
    var recordType: Octet
    var dataRem: Octet
    var checksum: Octet
    var pageStartAddress: nat
    var currBaseAddress: nat
    var currAddress: nat
    var pageDirty: bool
    var runBootloader: bool
    const bootStart: nat
    var flash: Flash
    ghost var trace: seq<FlashOp>

    ghost function State(): State
      reads this
    {
      HexParser.State.State(phase, prevData, data, readMsb, recordType, dataRem, checksum, pageStartAddress,
                            currBaseAddress, currAddress, pageDirty, runBootloader, bootStart, flash, trace)
    }

    /** The loader as it is switched on. */
    constructor (flash: Flash, bootStart: nat)
      requires ValidFlash(flash) && flash.temp == Blank(PageSize(flash))
      requires bootStart % PageSize(flash) == 0 && bootStart <= |flash.mem|
      ensures Connected(State()) && this.flash == flash && this.bootStart == bootStart && prevData == 0
      ensures trace == [] && Explained(State(), flash)
      ensures data == recordType == dataRem == checksum == 0 && currAddress == 0
    {
      phase := WaitLine;
      prevData, data, readMsb, recordType, dataRem, checksum := 0, 0, false, 0, 0, 0;
      pageStartAddress, currBaseAddress, currAddress := 0, 0, 0;
      pageDirty, runBootloader := false, true;
      this.bootStart, this.flash, trace := bootStart, flash, [];
    }

    method FlushPageIfRequired()
      requires Valid(State())
      modifies this
      ensures State() == FlushIfRequired(old(State()))
    {
      hide Write, PageOf;
      if !pageDirty {
        return;
      }
      var newPageStartAddress := PageOf(currAddress, PageSize(flash));
      if pageStartAddress != newPageStartAddress {
        flash, trace := Write(flash, pageStartAddress), trace + [WriteOp(pageStartAddress)];
        pageStartAddress := newPageStartAddress;
        pageDirty := false;
      }
    }

    /** Handles the two bytes of a word, according to the type of the record. */
    method ProcessWord()
      requires Valid(State())
      modifies this
      ensures State() == TakeWord(old(State()))
    {
      hide FlushIfRequired, Erase, Fill, ValidFlash;
      match recordType {
        case 0 =>
          if !pageDirty {
            flash, trace := Erase(flash, pageStartAddress), trace + [EraseOp(pageStartAddress)];
            pageDirty := true;
          }
          flash, trace := Fill(flash, currAddress, prevData, data), trace + [FillOp(currAddress, prevData, data)];
          currAddress := Wrap32(currAddress + 2);
          assert State() == FillWord(if old(pageDirty) then old(State()) else ErasePage(old(State())));
          FlushPageIfRequired();
        case 2 =>
          currBaseAddress := (data * 256 + prevData) * 16;
        case 4 =>
          currBaseAddress := (data * 256 + prevData) * 0x1_0000;
        case _ =>
      }
    }

    method ParseIntelHexByte(c: char)
      requires Valid(State())
      modifies this
      ensures State() == Step(old(State()), c)
    {
      hide TakeByte, ValidFlash;
      if phase.WaitLine? || c == ':' {
        checksum := 0;
        currAddress := currBaseAddress;
        readMsb := false;
        if c == ':' {
          phase := ByteCount;
        }
        return;
      }
      var digit := HexToDecimal(c);
      if digit < 0 {
        return;
      }
      data := (data * 16 + digit) % 256;
      readMsb := !readMsb;
      if readMsb {
        return;
      }
      ProcessByte();
    }

    /** A byte of the data field: it is dropped from the boot section on, and a word is handled when complete. */
    method ProcessData()
      requires Valid(State())
      modifies this
      ensures State() == TakeData(old(State()))
    {
      hide TakeWord, ValidFlash;
      dataRem := (dataRem + 255) % 256;
      if currAddress >= bootStart {
        phase := WaitLine;
        pageDirty := false;
      } else if dataRem % 2 == 1 {
        prevData := data;
      } else {
        ProcessWord();
        if dataRem == 0 {
          phase := Checksum;
        }
      }
    }

    method ProcessChecksum()
      requires Valid(State())
      modifies this
      ensures State() == TakeChecksum(old(State()))
    {
      hide FlushIfRequired, ValidFlash;
      ChecksumTest(checksum, data);
      if data != (256 - checksum) % 256 {
        return;
      }
      FlushPageIfRequired();
      if recordType == RECORD_END {
        runBootloader := false;
      }
    }

    method ProcessByte()
      requires Valid(State())
      modifies this
      ensures State() == TakeByte(old(State()))
    {
      hide TakeData, TakeChecksum, ValidFlash, Wrap32;
      if !phase.Checksum? {
        checksum := (checksum + data) % 256;
      }
      match phase {
        case ByteCount =>
          dataRem := data;
          phase := AddressHigh;
        case AddressHigh =>
          currAddress := Wrap32(currAddress + data * 256);
          phase := AddressLow;
        case AddressLow =>
          currAddress := Wrap32(currAddress + data);
          phase := RecordType;
        case RecordType =>
          recordType := data;
          phase := if dataRem != 0 then ReadData else Checksum;
        case ReadData =>
          ProcessData();
        case Checksum =>
          assert State() == old(State());
          ProcessChecksum();
        case WaitLine =>
          phase := WaitLine;
      }
    }

    /** Feeds received characters to the parser, one after the other. */
    method Receive(text: string)
      requires Valid(State())
      modifies this
      ensures State() == Run(old(State()), text)
    {
      hide Step;
      RunNone(State());
      for i := 0 to |text|
        invariant Valid(State()) && State() == Run(old(State()), text[..i])
      {
        ParseIntelHexByte(text[i]);
        assert text[..i + 1] == text[..i] + [text[i]];
        RunAppend(old(State()), text[..i], [text[i]]);
        assert [text[i]] == [text[i]] + [];
        RunOne(Run(old(State()), text[..i]), text[i], []);
      }
      assert text[..|text|] == text;
    }

    /**
     Prints a file to a loader that has just been connected. Line ends and other characters between and
     inside the records do not matter.
     */
    method PrintFile(text: string, ghost chunks: seq<seq<Octet>>)
      requires Connected(State()) && PageSize(flash) <= |flash.mem|
      requires Chunked(chunks) && |Concat(chunks)| <= 0x1_0000 && |Concat(chunks)| <= bootStart
      requires Strip(text) == FileText(chunks)
      modifies this
      ensures !runBootloader
      ensures Outcome(flash, old(flash.mem), PageSize(old(flash)), Concat(chunks))
    {
      hide Run, Step, Strip, FileText, Outcome;
      FileLoads(State(), chunks);
      StripChangesNothing(State(), State(), text);
      Receive(text);
    }

    /** Prints a file whose last record has odd length: it arrives only if its bytes repeat the one left over. */
    method PrintOddFile(text: string, ghost chunks: seq<seq<Octet>>, ghost tail: seq<Octet>)
      requires Connected(State()) && PageSize(flash) <= |flash.mem|
      requires OddFile(chunks, tail) && |Concat(chunks)| + |tail| + 1 <= bootStart
      requires Strip(text) == OddFileText(chunks, tail)
      modifies this
      ensures !runBootloader
      ensures var n := |Concat(chunks)|;
              InPlace(flash.mem, n, tail) <==>
              AllEqual(tail, if n + |tail| + 1 < PageSize(old(flash)) then BLANK
                             else LeftOver(old(prevData), Concat(chunks)))
    {
      hide Run, Step, Strip, OddFileText, Outcome, InPlace, AllEqual, LeftOver;
      OddFileLoads(State(), chunks, tail);
      OddFileIff(State(), chunks, tail);
      StripChangesNothing(State(), State(), text);
      Receive(text);
    }

    /** Prints data records for any addresses, in any order; f is the flash from which the trace started. */
    method PrintRecords(text: string, ghost rs: seq<DataRecord>, ghost f: Flash)
      requires Connected(State()) && Explained(State(), f) && Spares(trace, bootStart) && AreRecords(rs)
      requires Strip(text) == RecordsText(rs) + EndRecord()
      modifies this
      ensures Spares(trace, bootStart) <==> NeverReturns(rs, bootStart)
      ensures NeverReturns(rs, bootStart) ==> SameFrom(f, flash, bootStart)
    {
      hide Run, Step, Strip, RecordsText, EndRecord, Spares, NeverReturns, SameFrom, Explained;
      FileSparesIff(State(), rs);
      if NeverReturns(rs, bootStart) {
        FileKeepsBoot(State(), f, rs);
      }
      StripChangesNothing(State(), State(), text);
      Receive(text);
    }

    /** Prints records with any offsets and extended addresses, in any state of the loader. */
    method PrintExtended(text: string, ghost rs: seq<HexRecord>)
      requires Valid(State()) && (forall r :: r in rs ==> IsHexRecord(r)) && Strip(text) == PrintedAll(rs)
      modifies this
      ensures Fills(trace) == Fills(old(trace)) + FileFills(old(currBaseAddress), rs, bootStart)
    {
      hide Run, Step, Strip, PrintedAll, Fills, FileFills, IsHexRecord, ValidFlash;
      FileFillsAll(State(), rs);
      StripChangesNothing(State(), State(), text);
      Receive(text);
    }
  }
}
