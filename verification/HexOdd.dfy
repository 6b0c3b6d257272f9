/**
 Data records of odd length. The parser pairs bytes from the end of a record, so the first byte of an odd record
 is paired with a byte that an earlier record left over, and all bytes arrive one address too high.
 */
module HexOdd {
  import opened Flash
  import opened HexParser

  /** The data bytes of an odd record: the byte left over goes in front of them. */
  lemma {:induction false} OddBytes(s: State, mem: seq<Octet>, size: nat, full: seq<Octet>, rest: seq<Octet>,
                                    bytes: seq<Octet>)
    returns (full': seq<Octet>, rest': seq<Octet>)
    requires Loaded(s, mem, size, full, rest) && |bytes| % 2 == 1 && |bytes| < 256
    requires Reading(s, |full + rest|, s.checksum, |bytes|)
    requires |full + rest| + |bytes| + 1 <= s.boot && |full + rest| + |bytes| + 1 <= 0x1_0000
    ensures Valid(s)
    ensures var t := Run(s, HexText(bytes));
            && Loaded(t, mem, size, full', rest') && t.boot == s.boot
            && Reading(t, |full + rest| + |bytes| + 1, (s.checksum + Sum(bytes)) % 256, 0)
    ensures full' + rest' == full + rest + ([s.prevData] + bytes)
  {
    hide TakeByte, TakeWord, HexByte, Run, HexText, Loaded, ValidFlash, Sum;
    LoadedValid(s, mem, size, full, rest);
    var b, more := bytes[0], bytes[1..];
    assert bytes == [b] + more;
    SecondOfWord(s, b, |more|);
    var s1 := s.(data := b, checksum := (s.checksum + b) % 256, dataRem := |more|);
    LoadedAlso(s, s1, mem, size, full, rest);
    var f1, r1 := WordLoads(s1, mem, size, full, rest);
    var t := TakeByte(s.(data := b));
    LoadedAlso(TakeWord(s1), t, mem, size, f1, r1);
    HexTextCons(b, more);
    RunByte(s, b, HexText(more));
    full', rest' := DataBytes(t, mem, size, f1, r1, more);
    JoinWord(full + rest, s.prevData, b, more);
    SumCons(b, more);
    AddMod(s.checksum, b, Sum(more));
  }

  /** A whole odd record for the next addresses, from its mark to its checksum. */
  lemma {:induction false} OddRecordSlips(s: State, mem: seq<Octet>, size: nat, full: seq<Octet>, rest: seq<Octet>,
                                          bytes: seq<Octet>)
    returns (full': seq<Octet>, rest': seq<Octet>)
    requires Loaded(s, mem, size, full, rest) && |bytes| % 2 == 1 && |bytes| < 256
    requires |full + rest| + |bytes| + 1 <= s.boot && |full + rest| + |bytes| + 1 <= 0x1_0000
    ensures Valid(s)
    ensures var t := Run(s, Record(|full + rest|, RECORD_DATA, bytes));
            Loaded(t, mem, size, full', rest') && t.boot == s.boot
    ensures full' + rest' == full + rest + ([s.prevData] + bytes)
  {
    hide Run, Record, HexByte, HexText, TakeByte, Sum, Loaded, Reading, AfterHeader;
    LoadedValid(s, mem, size, full, rest);
    var n := |full + rest|;
    var ck := RecordParsed(s, n, RECORD_DATA, bytes, []);
    HeaderReads(s, mem, size, full, rest, |bytes|);
    var s1 := AfterHeader(s, |bytes|, n / 256, n % 256, RECORD_DATA);
    full', rest' := OddBytes(s1, mem, size, full, rest, bytes);
    WholeRecord(s, s1, n, bytes, ck);
    DataEnds(Run(s1, HexText(bytes)), mem, size, full', rest', (s1.checksum + Sum(bytes)) % 256, ck);
  }

  /** A file that ends in an odd record. */
  predicate OddFile(chunks: seq<seq<Octet>>, tail: seq<Octet>)
  {
    Chunked(chunks) && |tail| % 2 == 1 && |tail| < 256 && |Concat(chunks)| + |tail| + 1 <= 0x1_0000
  }

  function OddFileText(chunks: seq<seq<Octet>>, tail: seq<Octet>): string
    requires OddFile(chunks, tail)
  {
    DataRecords(0, chunks) + (Record(|Concat(chunks)|, RECORD_DATA, tail) + EndRecord())
  }

  /** What is loaded for such a file: the byte left over by the last even record is pushed in before the odd one. */
  function Slipped(prev: Octet, chunks: seq<seq<Octet>>, tail: seq<Octet>): seq<Octet>
  {
    Concat(chunks) + ([LeftOver(prev, Concat(chunks))] + tail)
  }

  lemma {:induction false} OddFileLoads(s: State, chunks: seq<seq<Octet>>, tail: seq<Octet>)
    requires Connected(s) && OddFile(chunks, tail) && PageSize(s.flash) <= |s.flash.mem|
    requires |Concat(chunks)| + |tail| + 1 <= s.boot
    ensures var t := Run(s, OddFileText(chunks, tail));
            !t.run && Outcome(t.flash, s.flash.mem, PageSize(s.flash), Slipped(s.prevData, chunks, tail))
  {
    hide Run, DataRecords, Record, Outcome, LeftOver, Loaded;
    var mem, size, image := s.flash.mem, PageSize(s.flash), Concat(chunks);
    StartsLoaded(s);
    var f1, r1 := RecordsLoad(s, mem, size, [], [], chunks);
    assert [] + [] + image == image;
    var u := Run(s, DataRecords(0, chunks));
    RunAppend(s, DataRecords(0, chunks), Record(|image|, RECORD_DATA, tail) + EndRecord());
    RunAppend(u, Record(|image|, RECORD_DATA, tail), EndRecord());
    var full, rest := OddRecordSlips(u, mem, size, f1, r1, tail);
    var v := Run(u, Record(|image|, RECORD_DATA, tail));
    LoadedValid(v, mem, size, full, rest);
    EndParsed(v);
    EndFlushes(v, mem, size, full, rest);
  }

  /** The bytes are in memory at a. */
  predicate InPlace(mem: seq<Octet>, a: nat, bytes: seq<Octet>)
  {
    a + |bytes| <= |mem| && mem[a..a + |bytes|] == bytes
  }

  predicate AllEqual(bytes: seq<Octet>, b: Octet)
  {
    forall i :: 0 <= i < |bytes| ==> bytes[i] == b
  }

  /**
   An odd last record arrives exactly if all its bytes equal the byte left over, which is the last byte but one
   before it; or, in a file that stays inside the first page and is never written, if they are blank.
   */
  lemma {:induction false} OddFileIff(s: State, chunks: seq<seq<Octet>>, tail: seq<Octet>)
    requires Connected(s) && OddFile(chunks, tail) && PageSize(s.flash) <= |s.flash.mem|
    requires |Concat(chunks)| + |tail| + 1 <= s.boot
    ensures var n := |Concat(chunks)|;
            InPlace(Run(s, OddFileText(chunks, tail)).flash.mem, n, tail) <==>
            AllEqual(tail, if n + |tail| + 1 < PageSize(s.flash) then BLANK else LeftOver(s.prevData, Concat(chunks)))
  {
    hide Run, OddFileText, SetPage, Stored, LeftOver, Concat;
    OddFileLoads(s, chunks, tail);
    var mem, n := Run(s, OddFileText(chunks, tail)).flash.mem, |Concat(chunks)|;
    if n + |tail| + 1 < PageSize(s.flash) {
      var bytes := mem[n..n + |tail|];
      assert AllEqual(bytes, BLANK);
      assert bytes == tail <==> AllEqual(tail, BLANK);
    } else {
      var left := LeftOver(s.prevData, Concat(chunks));
      var slipped := Slipped(s.prevData, chunks, tail);
      assert mem[n..n + |tail|] == slipped[n..n + |tail|] == ([left] + tail)[..|tail|];
      ShiftedEqual(tail, left);
    }
  }

  /** Bytes that equal themselves shifted by one are all equal. */
  lemma {:induction false} ShiftedEqual(tail: seq<Octet>, left: Octet)
    ensures ([left] + tail)[..|tail|] == tail <==> AllEqual(tail, left)
  {
    if ([left] + tail)[..|tail|] == tail {
      for k := 0 to |tail|
        invariant forall i :: 0 <= i < k ==> tail[i] == left
      {
        assert ([left] + tail)[..|tail|][k] == tail[k];
      }
    }
  }

  /** The file of the single byte 1, printed to a loader that has just been switched on, does not arrive. */
  lemma {:induction false} OneByteFileFails(s: State)
    requires Connected(s) && s.prevData == 0 && 2 <= s.boot && PageSize(s.flash) <= |s.flash.mem|
    ensures !InPlace(Run(s, ":0100000001FE:00000001FF").flash.mem, 0, [1])
  {
    hide Run, Record, InPlace, Connected, Chunked;
    OneByteFile();
    OddFileIff(s, [], [1]);
    assert [1][0] == 1;
  }

  lemma {:induction false} OneByteFile()
    ensures OddFile([], [1]) && Concat([]) == [] && OddFileText([], [1]) == ":0100000001FE:00000001FF"
  {
    hide Record, HexText;
    assert Concat([]) == [];
    OneByteText();
    EndRecordText();
    assert DataRecords(0, []) == [];
  }

  lemma {:induction false} OneByteText()
    ensures Record(0, RECORD_DATA, [1]) == ":0100000001FE"
  {
    hide HexByte, HexText;
    assert HexByte(0) == "00" && HexByte(1) == "01" && HexByte(254) == "FE" by { OneByteBytes(); }
    RecordText(0, RECORD_DATA, [1]);
    SumHeader(1, 0, 0, RECORD_DATA);
    HexTextCons(1, [0, 0, 0]);
    HexTextCons(0, [0, 0]);
    HexTextCons(0, [0]);
    HexTextCons(0, []);
    HexTextCons(1, []);
    HexTextNone();
    assert [1, 0, 0, 0] == [1] + [0, 0, 0] && [0, 0, 0] == [0] + [0, 0] && [0, 0] == [0] + [0] && [0] == [0] + [];
    assert [1] == [1] + [];
    SumCons(1, []);
  }

  lemma {:induction false} OneByteBytes()
    ensures HexByte(0) == "00" && HexByte(1) == "01" && HexByte(254) == "FE"
  {
  }
}
