/**
 The printer-class boot loader: an Intel HEX file is "printed" to the device, which parses it one
 character at a time and programs the data into flash.
 */
module HexParser {
  import opened Arithmetic
  import opened Flash

  datatype Phase = WaitLine | ByteCount | AddressHigh | AddressLow | RecordType | ReadData | Checksum

  const RECORD_DATA := 0
  const RECORD_END := 1
  const RECORD_SEGMENT := 2
  const RECORD_LINEAR := 4

  /** What the parser does to the flash. */
  datatype FlashOp = EraseOp(page: nat) | FillOp(address: nat, lo: Octet, hi: Octet) | WriteOp(page: nat)

  /**
   The parser's variables; boot is the first address of the boot loader's own section, and trace what was done to
   the flash.
   */
  datatype State = State(
    phase: Phase,
    prevData: Octet,
    data: Octet,
    readMsb: bool,
    recordType: Octet,
    dataRem: Octet,
    checksum: Octet,
    pageStart: nat,
    base: nat,
    addr: nat,
    dirty: bool,
    run: bool,
    boot: nat,
    flash: Flash,
    trace: seq<FlashOp>)

  ghost predicate Valid(s: State)
  {
    ValidFlash(s.flash)
  }

  function HexToDecimal(c: char): (v: int)
    ensures -1 <= v < 16
    ensures if v >= 0 then c == "0123456789ABCDEF"[v] else c !in "0123456789ABCDEF"
  {
    if 'A' <= c <= 'F' then 10 + (c as int - 'A' as int)
    else if '0' <= c <= '9' then c as int - '0' as int
    else -1
  }

  function Wrap32(a: nat): nat
  {
    a % 0x1_0000_0000
  }

  // ---------------------------------------------------------------------------
  // What one character does

  function Step(s: State, c: char): (r: State)
    requires Valid(s)
    ensures Valid(r)
  {
    if s.phase.WaitLine? || c == ':' then StartLine(s, c)
    else if HexToDecimal(c) < 0 then s
    else Nibble(s, HexToDecimal(c))
  }

  function StartLine(s: State, c: char): State
  {
    s.(checksum := 0, addr := s.base, readMsb := false, phase := if c == ':' then ByteCount else s.phase)
  }

  function Nibble(s: State, v: nat): (r: State)
    requires Valid(s) && v < 16
    ensures Valid(r)
  {
    var s1 := s.(data := (s.data * 16 + v) % 256, readMsb := !s.readMsb);
    if s1.readMsb then s1 else TakeByte(s1)
  }

  /** What a completed byte, s.data, does. */
  function TakeByte(s: State): (r: State)
    requires Valid(s)
    ensures Valid(r)
  {
    var t := if s.phase.Checksum? then s else s.(checksum := (s.checksum + s.data) % 256);
    match t.phase
    case ByteCount => t.(dataRem := t.data, phase := AddressHigh)
    case AddressHigh => t.(addr := Wrap32(t.addr + t.data * 256), phase := AddressLow)
    case AddressLow => t.(addr := Wrap32(t.addr + t.data), phase := RecordType)
    case RecordType => t.(recordType := t.data, phase := if t.dataRem != 0 then ReadData else Checksum)
    case ReadData => TakeData(t)
    case Checksum => TakeChecksum(t)
    case WaitLine => t
  }

  function TakeData(s: State): (r: State)
    requires Valid(s)
    ensures Valid(r)
  {
    var t := s.(dataRem := (s.dataRem + 255) % 256);
    if t.addr >= t.boot then t.(phase := WaitLine, dirty := false)
    else if t.dataRem % 2 == 1 then t.(prevData := t.data)
    else
      var u := TakeWord(t);
      if u.dataRem == 0 then u.(phase := Checksum) else u
  }

  function TakeWord(s: State): (r: State)
    requires Valid(s)
    ensures Valid(r)
  {
    if s.recordType == RECORD_DATA then FlushIfRequired(FillWord(if s.dirty then s else ErasePage(s)))
    else if s.recordType == RECORD_SEGMENT then s.(base := (s.data * 256 + s.prevData) * 16)
    else if s.recordType == RECORD_LINEAR then s.(base := (s.data * 256 + s.prevData) * 0x1_0000)
    else s
  }

  function ErasePage(s: State): (r: State)
    requires Valid(s)
    ensures Valid(r)
  {
    s.(dirty := true, flash := Erase(s.flash, s.pageStart), trace := s.trace + [EraseOp(s.pageStart)])
  }

  function FillWord(s: State): (r: State)
    requires Valid(s)
    ensures Valid(r)
  {
    s.(flash := Fill(s.flash, s.addr, s.prevData, s.data), trace := s.trace + [FillOp(s.addr, s.prevData, s.data)],
       addr := Wrap32(s.addr + 2))
  }

  function FlushIfRequired(s: State): (r: State)
    requires Valid(s)
    ensures Valid(r)
  {
    var page := PageOf(s.addr, PageSize(s.flash));
    if s.dirty && s.pageStart != page then
      s.(flash := Write(s.flash, s.pageStart), trace := s.trace + [WriteOp(s.pageStart)], pageStart := page,
        dirty := false)
    else s
  }

  function TakeChecksum(s: State): (r: State)
    requires Valid(s)
    ensures Valid(r)
  {
    if (s.checksum + s.data) % 256 != 0 then s
    else
      var t := FlushIfRequired(s);
      if t.recordType == RECORD_END then t.(run := false) else t
  }

  /** What a whole stream of characters does. */
  function Run(s: State, text: string): (r: State)
    requires Valid(s)
    ensures Valid(r)
    decreases |text|
  {
    if text == [] then s else Run(Step(s, text[0]), text[1..])
  }

  lemma {:induction false} RunAppend(s: State, a: string, b: string)
    requires Valid(s)
    ensures Run(s, a + b) == Run(Run(s, a), b)
    decreases |a|
  {
    if a == [] {
      assert a + b == b;
    } else {
      RunAppend(Step(s, a[0]), a[1..], b);
      assert (a + b)[1..] == a[1..] + b;
    }
  }

  // ---------------------------------------------------------------------------
  // Printing an image

  function HexDigit(v: nat): (c: char)
    requires v < 16
    ensures HexToDecimal(c) == v
  {
    "0123456789ABCDEF"[v]
  }

  function HexByte(b: Octet): (t: string)
    ensures |t| == 2
  {
    [HexDigit(b / 16), HexDigit(b % 16)]
  }

  function HexText(bytes: seq<Octet>): string
  {
    if bytes == [] then [] else HexByte(bytes[0]) + HexText(bytes[1..])
  }

  /** The general record format: mark, length, load offset, type, data, and the checksum that zeroes the sum. */
  function Record(addr: nat, kind: Octet, bytes: seq<Octet>): string
    requires addr < 0x1_0000 && |bytes| < 256
  {
    var fields := [|bytes|, addr / 256, addr % 256, kind] + bytes;
    ":" + HexText(fields + [(256 - Sum(fields) % 256) % 256])
  }

  /** The data of a file, cut into records of whole words. */
  predicate Chunked(chunks: seq<seq<Octet>>)
  {
    forall c :: c in chunks ==> 0 < |c| < 256 && |c| % 2 == 0
  }

  /** Contiguous data records from address addr on. */
  function DataRecords(addr: nat, chunks: seq<seq<Octet>>): string
    requires Chunked(chunks)
    requires addr + |Concat(chunks)| <= 0x1_0000
    decreases |chunks|
  {
    if chunks == [] then []
    else Record(addr, RECORD_DATA, chunks[0]) + DataRecords(addr + |chunks[0]|, chunks[1..])
  }

  function Concat(chunks: seq<seq<Octet>>): seq<Octet>
  {
    if chunks == [] then [] else chunks[0] + Concat(chunks[1..])
  }

  lemma {:induction false} HexByteParsed(s: State, b: Octet)
    requires Valid(s) && !s.phase.WaitLine? && !s.readMsb
    ensures Run(s, HexByte(b)) == TakeByte(s.(data := b))
  {
    hide TakeByte, HexDigit;
    var hi, lo := HexDigit(b / 16), HexDigit(b % 16);
    var s1 := s.(data := (s.data * 16 + b / 16) % 256, readMsb := true);
    HexDigitParsed(s, b / 16);
    HexDigitParsed(s1, b % 16);
    NibblesJoin(s.data, b);
    RunTwo(s, hi, lo);
  }

  lemma {:induction false} HexDigitParsed(s: State, v: nat)
    requires Valid(s) && !s.phase.WaitLine? && v < 16
    ensures Step(s, HexDigit(v)) == Nibble(s, v)
  {
    hide Nibble;
    assert HexToDecimal(':') == -1;
  }

  lemma {:induction false} RunTwo(s: State, a: char, b: char)
    requires Valid(s)
    ensures Run(s, [a, b]) == Step(Step(s, a), b)
  {
    hide Step;
    assert [a, b][1..] == [b] && [b][1..] == [];
    assert Run(Step(s, a), [b]) == Run(Step(Step(s, a), b), []);
  }

  lemma {:induction false} NibblesJoin(d: Octet, b: Octet)
    ensures ((d * 16 + b / 16) % 256 * 16 + b % 16) % 256 == b
  {
    var q, r := (d * 16 + b / 16) / 256, (d * 16 + b / 16) % 256;
    assert r == (d * 16 + b / 16) - 256 * q;
    assert r * 16 + b % 16 == 256 * (d - 16 * q) + b;
    DivModUnique(r * 16 + b % 16, 256, d - 16 * q, b);
  }

  // ---------------------------------------------------------------------------
  // Loading

  /** The data bytes full + rest have arrived: whole pages are in flash, the rest of them in the buffer. */
  ghost predicate Loaded(s: State, mem: seq<Octet>, size: nat, full: seq<Octet>, rest: seq<Octet>)
  {
    && Streaming(mem, size, 0, full, rest)
    && s.flash == Streamed(mem, size, 0, full, rest)
    && s.pageStart == |full| && s.dirty == (rest != [])
    && s.base == 0 && s.run && !s.readMsb
    && s.boot % size == 0 && s.boot <= |mem|
  }

  /** The parser is inside a data record, with dataRem bytes to come for the addresses that follow. */
  ghost predicate Reading(s: State, n: nat, checksum: Octet, remaining: nat)
  {
    && s.phase == (if remaining == 0 then Checksum else ReadData)
    && s.recordType == RECORD_DATA && s.addr == n && s.checksum == checksum && s.dataRem == remaining
  }

  lemma {:induction false} FirstOfWord(s: State, lo: Octet, remaining: nat)
    requires Valid(s) && s.phase.ReadData? && s.addr < s.boot
    requires remaining % 2 == 0 && s.dataRem == remaining + 2
    ensures TakeByte(s.(data := lo)) ==
            s.(data := lo, checksum := (s.checksum + lo) % 256, dataRem := remaining + 1, prevData := lo)
  {
    hide TakeWord;
  }

  lemma {:induction false} SecondOfWord(s: State, hi: Octet, remaining: nat)
    requires Valid(s) && s.phase.ReadData? && s.addr < s.boot
    requires remaining % 2 == 0 && s.dataRem == remaining + 1
    ensures var t := s.(data := hi, checksum := (s.checksum + hi) % 256, dataRem := remaining);
            TakeByte(s.(data := hi)) ==
            if TakeWord(t).dataRem == 0 then TakeWord(t).(phase := Checksum) else TakeWord(t)
  {
    hide TakeWord;
  }

  lemma {:induction false} WordLoads(s: State, mem: seq<Octet>, size: nat, full: seq<Octet>, rest: seq<Octet>)
    returns (full': seq<Octet>, rest': seq<Octet>)
    requires Loaded(s, mem, size, full, rest) && s.recordType == RECORD_DATA
    requires s.addr == |full + rest| < 0x1_0000 && s.addr + 2 <= s.boot
    ensures Valid(s)
    ensures Loaded(TakeWord(s), mem, size, full', rest')
    ensures full' + rest' == full + rest + [s.prevData, s.data]
    ensures TakeWord(s) == s.(addr := s.addr + 2, flash := TakeWord(s).flash, trace := TakeWord(s).trace,
                              pageStart := |full'|, dirty := rest' != [])
  {
    hide Erase, Fill, Write, Streamed, Streaming, TakeWord;
    StreamingFacts(mem, size, 0, full, rest);
    PageBelow(|full|, s.boot, size);
    StreamWord(mem, size, 0, full, rest, s.prevData, s.data);
    WordTaken(s, |full|, |rest|, size);
    if |rest| + 2 < size {
      full', rest' := full, rest + [s.prevData, s.data];
    } else {
      full', rest' := full + (rest + [s.prevData, s.data]), [];
    }
  }

  /** What a data word does that arrives when k bytes of the page at pg are loaded. */
  lemma {:induction false} WordTaken(s: State, pg: nat, k: nat, size: nat)
    requires Valid(s) && PageSize(s.flash) == size > 0 && s.recordType == RECORD_DATA && s.addr == pg + k < 0x1_0000
    requires s.pageStart == pg && pg % size == 0 && k + 2 <= size
    ensures var filled := Fill(if s.dirty then s.flash else Erase(s.flash, pg), s.addr, s.prevData, s.data);
            var t := s.(trace := TakeWord(s).trace);
            TakeWord(s) ==
            if k + 2 < size then t.(dirty := true, flash := filled, addr := s.addr + 2)
            else t.(dirty := false, flash := Write(filled, pg), addr := s.addr + 2, pageStart := pg + size)
  {
    hide Erase, Fill, Write, PageOf, Wrap32, ValidFlash;
    NextWordPage(pg, k, size);
  }

  lemma {:induction false} NextWordPage(pg: nat, k: nat, size: nat)
    requires size > 0 && pg % size == 0 && k + 2 <= size && pg + k < 0x1_0000
    ensures PageOf(pg + k + 2, size) == if k + 2 < size then pg else pg + size
    ensures Wrap32(pg + k + 2) == pg + k + 2
  {
    hide PageOf;
    if k + 2 < size {
      PageOfOffset(pg, k + 2, size);
    } else {
      NextPage(pg, size);
      PageOfOffset(pg + size, 0, size);
    }
  }

  lemma {:induction false} DataWord(s: State, mem: seq<Octet>, size: nat, full: seq<Octet>, rest: seq<Octet>,
                                    lo: Octet, hi: Octet, remaining: nat)
    returns (full': seq<Octet>, rest': seq<Octet>)
    requires Loaded(s, mem, size, full, rest) && remaining % 2 == 0
    requires Reading(s, |full + rest|, s.checksum, remaining + 2)
    requires |full + rest| + 2 <= s.boot && |full + rest| < 0x1_0000
    ensures Valid(s) && TakeByte(s.(data := lo)).phase.ReadData? && !TakeByte(s.(data := lo)).readMsb
    ensures var t := TakeByte(TakeByte(s.(data := lo)).(data := hi));
            && Loaded(t, mem, size, full', rest') && t.boot == s.boot
            && Reading(t, |full + rest| + 2, (s.checksum + lo + hi) % 256, remaining) && t.prevData == lo
    ensures full' + rest' == full + rest + [lo, hi]
  {
    hide TakeByte, TakeWord, Loaded, ValidFlash;
    LoadedValid(s, mem, size, full, rest);
    AddMod(s.checksum, lo, hi);
    FirstOfWord(s, lo, remaining);
    var s1 := TakeByte(s.(data := lo));
    SecondOfWord(s1, hi, remaining);
    var s2 := s1.(data := hi, checksum := (s1.checksum + hi) % 256, dataRem := remaining);
    LoadedAlso(s, s2, mem, size, full, rest);
    full', rest' := WordLoads(s2, mem, size, full, rest);
    LoadedAlso(TakeWord(s2), TakeByte(s1.(data := hi)), mem, size, full', rest');
  }

  /** Being loaded does not depend on the parser's place in a record. */
  lemma {:induction false} LoadedAlso(s: State, t: State, mem: seq<Octet>, size: nat, full: seq<Octet>,
                                      rest: seq<Octet>)
    requires Loaded(s, mem, size, full, rest)
    requires t == s.(phase := t.phase, prevData := t.prevData, data := t.data, recordType := t.recordType,
                     dataRem := t.dataRem, checksum := t.checksum, addr := t.addr)
    ensures Loaded(t, mem, size, full, rest)
  {
    hide Streamed, Streaming;
  }

  lemma {:induction false} AddMod(c: nat, x: nat, y: nat)
    ensures ((c + x) % 256 + y) % 256 == (c + x + y) % 256
  {
  }

  lemma {:induction false} HexTextAppend(a: seq<Octet>, b: seq<Octet>)
    ensures HexText(a + b) == HexText(a) + HexText(b)
  {
    hide HexByte;
    if a == [] {
      assert a + b == b;
    } else {
      HexTextAppend(a[1..], b);
      assert (a + b)[1..] == a[1..] + b;
      assert HexByte(a[0]) + (HexText(a[1..]) + HexText(b)) == (HexByte(a[0]) + HexText(a[1..])) + HexText(b);
    }
  }

  lemma {:induction false} SumAppend(a: seq<Octet>, b: seq<Octet>)
    ensures Sum(a + b) == Sum(a) + Sum(b)
  {
    if a == [] {
      assert a + b == b;
    } else {
      SumAppend(a[1..], b);
      assert (a + b)[1..] == a[1..] + b;
    }
  }

  /** Parsing one more hexadecimal byte before the rest of the text. */
  lemma {:induction false} RunByte(s: State, b: Octet, text: string)
    requires Valid(s) && !s.phase.WaitLine? && !s.readMsb
    ensures Run(s, HexByte(b) + text) == Run(TakeByte(s.(data := b)), text)
  {
    hide Run, HexByte, TakeByte;
    RunAppend(s, HexByte(b), text);
    HexByteParsed(s, b);
  }

  lemma {:induction false} HexTextCons(b: Octet, bytes: seq<Octet>)
    ensures HexText([b] + bytes) == HexByte(b) + HexText(bytes)
  {
    hide HexByte;
    assert ([b] + bytes)[1..] == bytes;
  }

  /** The byte that waits in prevData after these bytes: the first of the last word. */
  function LeftOver(prev: Octet, bytes: seq<Octet>): Octet
  {
    if |bytes| < 2 then prev else bytes[|bytes| - 2]
  }

  lemma {:induction false} DataBytes(s: State, mem: seq<Octet>, size: nat, full: seq<Octet>, rest: seq<Octet>,
                                     bytes: seq<Octet>)
    returns (full': seq<Octet>, rest': seq<Octet>)
    requires Loaded(s, mem, size, full, rest) && |bytes| % 2 == 0 && |bytes| < 256
    requires Reading(s, |full + rest|, s.checksum, |bytes|)
    requires |full + rest| + |bytes| <= s.boot && |full + rest| + |bytes| <= 0x1_0000
    ensures Valid(s)
    ensures var t := Run(s, HexText(bytes));
            && Loaded(t, mem, size, full', rest') && t.boot == s.boot
            && Reading(t, |full + rest| + |bytes|, (s.checksum + Sum(bytes)) % 256, 0)
            && t.prevData == LeftOver(s.prevData, bytes)
    ensures full' + rest' == full + rest + bytes
    decreases |bytes|
  {
    hide Loaded, TakeByte, HexByte, HexText, Run, Sum, LeftOver, ValidFlash;
    LoadedValid(s, mem, size, full, rest);
    if bytes == [] {
      full', rest' := full, rest;
      HexTextNone();
      RunNone(s);
      LeftOverNone(s.prevData);
      return;
    }
    var lo, hi, more := bytes[0], bytes[1], bytes[2..];
    assert bytes == [lo] + ([hi] + more);
    HexTextCons(lo, [hi] + more);
    HexTextCons(hi, more);
    SumTwo(lo, hi, more);
    var f1, r1 := DataWord(s, mem, size, full, rest, lo, hi, |more|);
    RunByte(s, lo, HexByte(hi) + HexText(more));
    RunByte(TakeByte(s.(data := lo)), hi, HexText(more));
    var t := TakeByte(TakeByte(s.(data := lo)).(data := hi));
    var l: nat, h: nat := lo, hi;
    AddMod(s.checksum, l + h, Sum(more));
    full', rest' := DataBytes(t, mem, size, f1, r1, more);
    JoinWord(full + rest, lo, hi, more);
    LeftOverWord(s.prevData, lo, hi, more);
  }

  lemma {:induction false} LeftOverWord(prev: Octet, lo: Octet, hi: Octet, more: seq<Octet>)
    requires |more| % 2 == 0
    ensures LeftOver(prev, [lo] + ([hi] + more)) == LeftOver(lo, more)
  {
  }

  lemma {:induction false} JoinWord(a: seq<Octet>, lo: Octet, hi: Octet, more: seq<Octet>)
    ensures a + [lo, hi] + more == a + ([lo] + ([hi] + more))
  {
  }

  lemma {:induction false} SumCons(b: Octet, bytes: seq<Octet>)
    ensures Sum([b] + bytes) == b + Sum(bytes)
  {
    assert ([b] + bytes)[1..] == bytes;
  }

  lemma {:induction false} SumTwo(lo: Octet, hi: Octet, more: seq<Octet>)
    ensures Sum([lo] + ([hi] + more)) == lo + hi + Sum(more)
  {
    assert ([lo] + ([hi] + more))[1..] == [hi] + more && ([hi] + more)[1..] == more;
  }

  lemma {:induction false} LoadedValid(s: State, mem: seq<Octet>, size: nat, full: seq<Octet>, rest: seq<Octet>)
    requires Loaded(s, mem, size, full, rest)
    ensures Valid(s) && !s.readMsb && s.base == 0
  {
  }

  /** The state behind a record's mark, length, offset and type. */
  function AfterHeader(s: State, len: Octet, hi: Octet, lo: Octet, kind: Octet): State
  {
    s.(phase := if len == 0 then Checksum else ReadData, readMsb := false, data := kind, dataRem := len,
       addr := hi * 256 + lo, recordType := kind, checksum := (len + hi + lo + kind) % 256)
  }

  /** A header is read alike from any base; its offset counts from the base. */
  lemma {:induction false} HeaderParsed(s: State, len: Octet, hi: Octet, lo: Octet, kind: Octet, text: string)
    requires Valid(s)
    ensures Run(s, ":" + HexText([len, hi, lo, kind]) + text) ==
            Run(AfterHeader(s, len, hi, lo, kind).(addr := Wrap32(s.base + Word(hi, lo))), text)
    ensures s.base == 0 ==> Wrap32(s.base + Word(hi, lo)) == hi * 256 + lo
  {
    hide Run, HexByte, TakeByte, AfterHeader;
    var s0 := StartLine(s, ':');
    var s1 := s0.(data := len, checksum := len, dataRem := len, phase := AddressHigh);
    var s2 := s1.(data := hi, checksum := (len + hi) % 256, addr := Wrap32(s.base + hi * 256), phase := AddressLow);
    var s3 := s2.(data := lo, checksum := (len + hi + lo) % 256, addr := Wrap32(s.base + Word(hi, lo)),
                  phase := RecordType);
    LengthAndHigh(s0, s1, s2, len, hi);
    LowAndKind(s, s2, s3, len, hi, lo, kind);
    HeaderText(len, hi, lo, kind, text);
    RunOne(s, ':', HexByte(len) + (HexByte(hi) + (HexByte(lo) + (HexByte(kind) + text))));
    RunByte(s0, len, HexByte(hi) + (HexByte(lo) + (HexByte(kind) + text)));
    RunByte(s1, hi, HexByte(lo) + (HexByte(kind) + text));
    RunByte(s2, lo, HexByte(kind) + text);
    RunByte(s3, kind, text);
  }

  lemma {:induction false} LengthAndHigh(s0: State, s1: State, s2: State, len: Octet, hi: Octet)
    requires Valid(s0) && s0.phase.ByteCount? && s0.checksum == 0
    requires s1 == s0.(data := len, checksum := len, dataRem := len, phase := AddressHigh)
    requires s2 == s1.(data := hi, checksum := (len + hi) % 256, addr := Wrap32(s0.addr + hi * 256),
                       phase := AddressLow)
    ensures TakeByte(s0.(data := len)) == s1 && TakeByte(s1.(data := hi)) == s2
  {
    hide TakeData, TakeChecksum, ValidFlash, Wrap32;
  }

  lemma {:induction false} LowAndKind(s: State, s2: State, s3: State, len: Octet, hi: Octet, lo: Octet, kind: Octet)
    requires Valid(s2) && s2.phase.AddressLow? && s2.checksum == (len + hi) % 256
    requires s2.dataRem == len && s2.addr == Wrap32(s.base + hi * 256)
    requires s3 == s2.(data := lo, checksum := (len + hi + lo) % 256, addr := Wrap32(s.base + Word(hi, lo)),
                       phase := RecordType)
    requires s == s2.(phase := s.phase, readMsb := s.readMsb, data := s.data, dataRem := s.dataRem, addr := s.addr,
                      recordType := s.recordType, checksum := s.checksum) && !s2.readMsb
    ensures TakeByte(s2.(data := lo)) == s3
    ensures TakeByte(s3.(data := kind)) == AfterHeader(s, len, hi, lo, kind).(addr := Wrap32(s.base + Word(hi, lo)))
  {
    hide TakeData, TakeChecksum, ValidFlash, Wrap32;
    WrapTwice(s.base, hi, lo);
    AddMod(len, hi, lo);
    var l: nat, h: nat, k: nat := lo, hi, kind;
    AddMod(len, h + l, k);
  }

  lemma {:induction false} WrapTwice(base: nat, hi: Octet, lo: Octet)
    ensures Wrap32(Wrap32(base + hi * 256) + lo) == Wrap32(base + Word(hi, lo))
  {
    var m := 0x1_0000_0000;
    var x := base + hi * 256;
    var q := (x % m + lo) / m;
    DivModUnique(x + lo, m, x / m + q, (x % m + lo) % m);
  }

  lemma {:induction false} RunOne(s: State, c: char, text: string)
    requires Valid(s)
    ensures Run(s, [c] + text) == Run(Step(s, c), text)
  {
    hide Step;
    assert ([c] + text)[1..] == text;
  }

  lemma {:induction false} HeaderText(a: Octet, b: Octet, c: Octet, d: Octet, text: string)
    ensures ":" + HexText([a, b, c, d]) + text
         == [':'] + (HexByte(a) + (HexByte(b) + (HexByte(c) + (HexByte(d) + text))))
  {
    hide HexByte;
    HexTextCons(a, [b, c, d]);
    HexTextCons(b, [c, d]);
    HexTextCons(c, [d]);
    HexTextCons(d, []);
    assert [a, b, c, d] == [a] + [b, c, d] && [b, c, d] == [b] + [c, d] && [c, d] == [c] + [d] && [d] == [d] + [];
  }

  lemma {:induction false} RecordText(addr: nat, kind: Octet, bytes: seq<Octet>)
    requires addr < 0x1_0000 && |bytes| < 256
    ensures var head := [|bytes|, addr / 256, addr % 256, kind];
            var ck := (256 - (Sum(head) + Sum(bytes)) % 256) % 256;
            Record(addr, kind, bytes) == ":" + HexText(head) + (HexText(bytes) + HexByte(ck))
  {
    hide HexByte;
    var head := [|bytes|, addr / 256, addr % 256, kind];
    SumAppend(head, bytes);
    var ck := (256 - Sum(head + bytes) % 256) % 256;
    HexTextAppend(head + bytes, [ck]);
    HexTextAppend(head, bytes);
    HexTextCons(ck, []);
    assert [ck] == [ck] + [];
  }

  lemma {:induction false} SumHeader(a: Octet, b: Octet, c: Octet, d: Octet)
    ensures Sum([a, b, c, d]) == a + b + c + d
  {
    SumTwo(a, b, [c, d]);
    SumTwo(c, d, []);
    assert [a, b, c, d] == [a] + ([b] + [c, d]) && [c, d] == [c] + ([d] + []);
  }

  /** The two ways to say that a byte completes a checksum. */
  lemma {:induction false} ChecksumTest(checksum: Octet, b: Octet)
    ensures b == (256 - checksum) % 256 <==> (checksum + b) % 256 == 0
  {
  }

  lemma {:induction false} ChecksumZeroes(h: nat, b: nat)
    ensures ((h % 256 + b) % 256 + (256 - (h + b) % 256) % 256) % 256 == 0
  {
    AddMod(0, h, b);
  }

  /** A record is its header, its data and a checksum that makes the sum zero. */
  lemma {:induction false} RecordParsed(s: State, addr: nat, kind: Octet, bytes: seq<Octet>, text: string)
    returns (ck: Octet)
    requires Valid(s) && addr < 0x1_0000 && |bytes| < 256
    ensures var s1 := AfterHeader(s, |bytes|, addr / 256, addr % 256, kind).(addr := Wrap32(s.base + addr));
            && Run(s, Record(addr, kind, bytes) + text) == Run(s1, HexText(bytes) + (HexByte(ck) + text))
            && ((s1.checksum + Sum(bytes)) % 256 + ck) % 256 == 0
            && (s.base == 0 ==> s1 == AfterHeader(s, |bytes|, addr / 256, addr % 256, kind))
  {
    hide Run, Record, HexByte, HexText, Sum, Wrap32;
    var head := [|bytes|, addr / 256, addr % 256, kind];
    RecordText(addr, kind, bytes);
    SumHeader(|bytes|, addr / 256, addr % 256, kind);
    ck := (256 - (Sum(head) + Sum(bytes)) % 256) % 256;
    ChecksumZeroes(Sum(head), Sum(bytes));
    assert Record(addr, kind, bytes) + text == ":" + HexText(head) + (HexText(bytes) + (HexByte(ck) + text));
    HeaderParsed(s, |bytes|, addr / 256, addr % 256, kind, HexText(bytes) + (HexByte(ck) + text));
  }

  /** The right checksum of a data record changes nothing: its page has been flushed already if it is complete. */
  lemma {:induction false} DataChecksum(s: State, mem: seq<Octet>, size: nat, full: seq<Octet>, rest: seq<Octet>,
                                        ck: Octet)
    requires Loaded(s, mem, size, full, rest) && Reading(s, |full + rest|, s.checksum, 0)
    requires (s.checksum + ck) % 256 == 0
    ensures Valid(s) && TakeByte(s.(data := ck)) == s.(data := ck)
  {
    hide TakeData, Streamed, Write, PageOf;
    PageOfOffset(|full|, |rest|, size);
  }

  /** A data record for the next addresses loads its bytes. */
  lemma {:induction false} RecordLoads(s: State, mem: seq<Octet>, size: nat, full: seq<Octet>, rest: seq<Octet>,
                                       bytes: seq<Octet>)
    returns (full': seq<Octet>, rest': seq<Octet>)
    requires Loaded(s, mem, size, full, rest) && |bytes| % 2 == 0 && 0 < |bytes| < 256
    requires |full + rest| + |bytes| <= s.boot && |full + rest| + |bytes| <= 0x1_0000
    ensures Valid(s)
    ensures var t := Run(s, Record(|full + rest|, RECORD_DATA, bytes));
            Loaded(t, mem, size, full', rest') && t.boot == s.boot && t.prevData == LeftOver(s.prevData, bytes)
    ensures full' + rest' == full + rest + bytes
  {
    hide Run, Record, HexByte, HexText, TakeByte, Sum, Loaded, Reading, AfterHeader, LeftOver;
    LoadedValid(s, mem, size, full, rest);
    var n := |full + rest|;
    var ck := RecordParsed(s, n, RECORD_DATA, bytes, []);
    HeaderReads(s, mem, size, full, rest, |bytes|);
    var s1 := AfterHeader(s, |bytes|, n / 256, n % 256, RECORD_DATA);
    full', rest' := DataBytes(s1, mem, size, full, rest, bytes);
    WholeRecord(s, s1, n, bytes, ck);
    DataEnds(Run(s1, HexText(bytes)), mem, size, full', rest', (s1.checksum + Sum(bytes)) % 256, ck);
  }

  lemma {:induction false} WholeRecord(s: State, s1: State, addr: nat, bytes: seq<Octet>, ck: Octet)
    requires Valid(s) && Valid(s1) && addr < 0x1_0000 && |bytes| < 256
    requires Run(s, Record(addr, RECORD_DATA, bytes) + []) == Run(s1, HexText(bytes) + (HexByte(ck) + []))
    ensures Run(s, Record(addr, RECORD_DATA, bytes)) == Run(Run(s1, HexText(bytes)), HexByte(ck))
  {
    hide Run, Record, HexByte, HexText;
    assert Record(addr, RECORD_DATA, bytes) + [] == Record(addr, RECORD_DATA, bytes) && HexByte(ck) + [] == HexByte(ck);
    RunAppend(s1, HexText(bytes), HexByte(ck));
  }

  lemma {:induction false} HeaderReads(s: State, mem: seq<Octet>, size: nat, full: seq<Octet>, rest: seq<Octet>,
                                       len: Octet)
    requires Loaded(s, mem, size, full, rest) && len > 0 && |full + rest| < 0x1_0000
    ensures var n := |full + rest|;
            var s1 := AfterHeader(s, len, n / 256, n % 256, RECORD_DATA);
            && Loaded(s1, mem, size, full, rest) && Reading(s1, n, s1.checksum, len)
            && s1.boot == s.boot && s1.prevData == s.prevData
            && s1.checksum == (len + n / 256 + n % 256 + RECORD_DATA) % 256
  {
    hide Streamed, Streaming;
  }

  lemma {:induction false} DataEnds(s: State, mem: seq<Octet>, size: nat, full: seq<Octet>, rest: seq<Octet>,
                                    checksum: Octet, ck: Octet)
    requires Loaded(s, mem, size, full, rest) && Reading(s, |full + rest|, checksum, 0) && (checksum + ck) % 256 == 0
    ensures Valid(s)
    ensures var t := Run(s, HexByte(ck));
            Loaded(t, mem, size, full, rest) && t.boot == s.boot && t.prevData == s.prevData
  {
    hide Run, HexByte, TakeByte, Streamed, Streaming;
    LoadedValid(s, mem, size, full, rest);
    HexByteParsed(s, ck);
    DataChecksum(s, mem, size, full, rest, ck);
  }

  lemma {:induction false} RecordsLoad(s: State, mem: seq<Octet>, size: nat, full: seq<Octet>, rest: seq<Octet>,
                                       chunks: seq<seq<Octet>>)
    returns (full': seq<Octet>, rest': seq<Octet>)
    requires Loaded(s, mem, size, full, rest) && Chunked(chunks)
    requires |full + rest| + |Concat(chunks)| <= s.boot && |full + rest| + |Concat(chunks)| <= 0x1_0000
    ensures Valid(s)
    ensures var t := Run(s, DataRecords(|full + rest|, chunks));
            Loaded(t, mem, size, full', rest') && t.boot == s.boot && t.prevData == LeftOver(s.prevData, Concat(chunks))
    ensures full' + rest' == full + rest + Concat(chunks)
    decreases |chunks|
  {
    hide Loaded, Record, ValidFlash, Run, LeftOver;
    LoadedValid(s, mem, size, full, rest);
    RunNone(s);
    LeftOverNone(s.prevData);
    if chunks == [] {
      full', rest' := full, rest;
    } else {
      assert chunks[0] in chunks;
      var f1, r1 := RecordLoads(s, mem, size, full, rest, chunks[0]);
      var text := Record(|full + rest|, RECORD_DATA, chunks[0]);
      RunAppend(s, text, DataRecords(|f1 + r1|, chunks[1..]));
      full', rest' := RecordsLoad(Run(s, text), mem, size, f1, r1, chunks[1..]);
      ConcatEven(chunks[1..]);
      LeftOverAppend(s.prevData, chunks[0], Concat(chunks[1..]));
      JoinChunk(full + rest, chunks[0], Concat(chunks[1..]));
    }
  }

  lemma {:induction false} LeftOverAppend(prev: Octet, a: seq<Octet>, b: seq<Octet>)
    requires |a| % 2 == 0 && |b| % 2 == 0
    ensures LeftOver(LeftOver(prev, a), b) == LeftOver(prev, a + b)
  {
    if b == [] {
      assert a + b == a;
    }
  }

  lemma {:induction false} LeftOverNone(prev: Octet)
    ensures LeftOver(prev, []) == prev
  {
  }

  lemma {:induction false} ConcatEven(chunks: seq<seq<Octet>>)
    requires Chunked(chunks)
    ensures |Concat(chunks)| % 2 == 0
  {
    if chunks != [] {
      assert chunks[0] in chunks;
      ConcatEven(chunks[1..]);
      assert |Concat(chunks)| == |chunks[0]| + |Concat(chunks[1..])|;
    }
  }

  lemma {:induction false} RunNone(s: State)
    requires Valid(s)
    ensures Run(s, []) == s
  {
  }

  lemma {:induction false} JoinChunk(a: seq<Octet>, b: seq<Octet>, c: seq<Octet>)
    ensures a + b + c == a + (b + c)
  {
  }

  /** The end-of-file record: ":00000001FF". */
  function EndRecord(): string
  {
    Record(0, RECORD_END, [])
  }

  lemma {:induction false} EndRecordText()
    ensures EndRecord() == ":00000001FF"
  {
    hide HexByte, Sum, HexText;
    EndBytes();
    SumHeader(0, 0, 0, RECORD_END);
    RecordText(0, RECORD_END, []);
    HexTextCons(0, [0, 0, 1]);
    HexTextCons(0, [0, 1]);
    HexTextCons(0, [1]);
    HexTextCons(1, []);
    assert [0, 0, 0, 1] == [0] + [0, 0, 1] && [0, 0, 1] == [0] + [0, 1] && [0, 1] == [0] + [1] && [1] == [1] + [];
  }

  lemma {:induction false} EndBytes()
    ensures HexByte(0) == "00" && HexByte(1) == "01" && HexByte(255) == "FF" && HexText([]) == [] && Sum([]) == 0
  {
  }

  lemma {:induction false} EndParsed(s: State)
    requires Valid(s) && s.base == 0
    ensures Run(s, EndRecord()) ==
            FlushIfRequired(AfterHeader(s, 0, 0, 0, RECORD_END).(data := 255)).(run := false)
  {
    hide Run, FlushIfRequired, Record, HexText;
    SumHeader(0, 0, 0, RECORD_END);
    RecordText(0, RECORD_END, []);
    assert HexText([]) + HexByte(255) == HexByte(255) by { HexTextNone(); }
    HeaderParsed(s, 0, 0, 0, RECORD_END, HexByte(255));
    var t := AfterHeader(s, 0, 0, 0, RECORD_END);
    HexByteParsed(t, 255);
    FlushKeepsType(t.(data := 255));
  }

  lemma {:induction false} HexTextNone()
    ensures HexText([]) == [] && Sum([]) == 0
  {
  }

  lemma {:induction false} FlushKeepsType(s: State)
    requires Valid(s)
    ensures FlushIfRequired(s).recordType == s.recordType
  {
  }

  /** A parser that has just been connected, over a flash with any contents. */
  ghost predicate Connected(s: State)
  {
    && Valid(s) && s.phase.WaitLine? && !s.readMsb && s.pageStart == 0 && s.base == 0 && !s.dirty && s.run
    && s.flash.temp == Blank(PageSize(s.flash))
    && s.boot % PageSize(s.flash) == 0 && s.boot <= |s.flash.mem|
  }

  /** The text of a whole file. */
  function FileText(chunks: seq<seq<Octet>>): string
    requires Chunked(chunks) && |Concat(chunks)| <= 0x1_0000
  {
    DataRecords(0, chunks) + EndRecord()
  }

  /**
   What becomes of an image: it is in flash, its last page filled up with blanks and everything else
   untouched, if it is empty or covers the first page; a shorter image is lost, and the first page erased.
   */
  ghost predicate Outcome(f: Flash, mem: seq<Octet>, size: nat, image: seq<Octet>)
  {
    && size > 0 && size <= |mem| && RoundUp(|image|, size) <= |mem|
    && if 0 < |image| < size
       then f.mem == SetPage(mem, 0, Blank(size))
       else f == Idle(Stored(mem, size, 0, image), size)
  }

  /** Printing a file stops the loader and has that outcome. */
  lemma {:induction false} FileLoads(s: State, chunks: seq<seq<Octet>>)
    requires Connected(s) && Chunked(chunks) && PageSize(s.flash) <= |s.flash.mem|
    requires |Concat(chunks)| <= 0x1_0000 && |Concat(chunks)| <= s.boot
    ensures var t := Run(s, FileText(chunks));
            !t.run && Outcome(t.flash, s.flash.mem, PageSize(s.flash), Concat(chunks))
  {
    hide Run, DataRecords, Record, Outcome;
    var mem, size, image := s.flash.mem, PageSize(s.flash), Concat(chunks);
    StartsLoaded(s);
    var full, rest := RecordsLoad(s, mem, size, [], [], chunks);
    RunAppend(s, DataRecords(0, chunks), EndRecord());
    var u := Run(s, DataRecords(0, chunks));
    EndParsed(u);
    assert [] + [] + image == image;
    EndFlushes(u, mem, size, full, rest);
  }

  lemma {:induction false} StartsLoaded(s: State)
    requires Connected(s)
    ensures Loaded(s, s.flash.mem, PageSize(s.flash), [], [])
  {
    assert SetPage(s.flash.mem, 0, []) == s.flash.mem;
  }

  lemma {:induction false} EndFlushes(s: State, mem: seq<Octet>, size: nat, full: seq<Octet>, rest: seq<Octet>)
    requires Loaded(s, mem, size, full, rest) && size <= |mem|
    ensures Outcome(FlushIfRequired(AfterHeader(s, 0, 0, 0, RECORD_END).(data := 255)).flash, mem, size, full + rest)
  {
    hide Write, Stored, SetPage, Idle;
    PageOfOffset(0, 0, size);
    if full != [] {
      PageMultiple(|full|, size);
    }
    if rest == [] {
      StreamedIsStored(mem, size, 0, full);
      assert full + rest == full;
    } else {
      FlushStores(mem, size, 0, full, rest, 0);
      if full == [] {
        SetNothing(mem, 0);
        assert s.flash.mem == SetPage(mem, 0, Blank(size));
      }
    }
  }

  lemma {:induction false} PageMultiple(n: nat, size: nat)
    requires size > 0 && n > 0 && n % size == 0
    ensures n >= size
  {
    if n < size {
      DivModUnique(n, size, 0, n);
    }
  }

  /** So the image is in flash exactly if it is empty, covers the first page, or is blank itself. */
  lemma {:induction false} FileLoadsIff(s: State, chunks: seq<seq<Octet>>)
    requires Connected(s) && Chunked(chunks) && PageSize(s.flash) <= |s.flash.mem|
    requires |Concat(chunks)| <= 0x1_0000 && |Concat(chunks)| <= s.boot
    ensures var image, size := Concat(chunks), PageSize(s.flash);
            && RoundUp(|image|, size) <= |s.flash.mem|
            && (Run(s, FileText(chunks)).flash.mem == Stored(s.flash.mem, size, 0, image) <==>
                image == [] || |image| >= size || AllBlank(image))
  {
    hide Run, FileText, Stored, SetPage;
    FileLoads(s, chunks);
    var image, size := Concat(chunks), PageSize(s.flash);
    if 0 < |image| < size {
      ShortImage(s.flash.mem, size, image);
    }
  }

  predicate AllBlank(image: seq<Octet>)
  {
    forall i :: 0 <= i < |image| ==> image[i] == BLANK
  }

  lemma {:induction false} ShortImage(mem: seq<Octet>, size: nat, image: seq<Octet>)
    requires 0 < |image| < size <= |mem|
    ensures RoundUp(|image|, size) == size
    ensures SetPage(mem, 0, Blank(size)) == Stored(mem, size, 0, image) <==> AllBlank(image)
  {
    DivModUnique(|image|, size, 0, |image|);
    var erased, stored := SetPage(mem, 0, Blank(size)), Stored(mem, size, 0, image);
    if AllBlank(image) {
      assert erased == stored;
    } else {
      var i :| 0 <= i < |image| && image[i] != BLANK;
      assert erased[i] != stored[i];
    }
  }

  // ---------------------------------------------------------------------------
  // Characters that do not matter

  predicate Significant(c: char)
  {
    c == ':' || HexToDecimal(c) >= 0
  }

  /** The text without line ends, spaces and everything else that is not part of a record. */
  function Strip(text: string): string
  {
    if text == [] then [] else (if Significant(text[0]) then [text[0]] else []) + Strip(text[1..])
  }

  /** Equal, except for what the next start of a line resets. */
  ghost predicate Alike(s: State, t: State)
  {
    s == t || (s.phase.WaitLine? && s == t.(checksum := s.checksum, addr := s.addr, readMsb := s.readMsb))
  }

  /** Dropping insignificant characters changes neither the flash nor whether the loader goes on. */
  lemma {:induction false} StripChangesNothing(s: State, t: State, text: string)
    requires Valid(s) && Valid(t) && Alike(s, t)
    ensures Alike(Run(s, text), Run(t, Strip(text)))
    decreases |text|
  {
    hide Nibble;
    if text != [] {
      var c := text[0];
      if Significant(c) {
        StripChangesNothing(Step(s, c), Step(t, c), text[1..]);
        assert Strip(text) == [c] + Strip(text[1..]);
        RunOne(t, c, Strip(text[1..]));
      } else {
        StripChangesNothing(Step(s, c), t, text[1..]);
        assert Strip(text) == Strip(text[1..]);
      }
    }
  }

  // ---------------------------------------------------------------------------
  // When the loader stops

  /** The bytes of the current line so far, and the first digit of the next one. */
  datatype Line = Line(bytes: seq<Octet>, half: int)

  /** What has been spelled since the last start mark. */
  function LineOf(text: string): (l: Line)
    ensures -1 <= l.half < 16
  {
    if text == [] then Line([], -1)
    else Next(LineOf(text[..|text| - 1]), text[|text| - 1])
  }

  /** How many bytes of a line its checksum covers: the four of the header, and the data. */
  function SummedBytes(l: Line): nat
    requires l.bytes != []
  {
    var n: nat := l.bytes[0];
    n + 4
  }

  /** A whole end-of-file record, followed at once or later by a byte that makes its sum zero. */
  predicate EndsFile(l: Line)
  {
    && l.bytes != [] && |l.bytes| > SummedBytes(l) && l.bytes[3] == RECORD_END
    && (Sum(l.bytes[..SummedBytes(l)]) + l.bytes[|l.bytes| - 1]) % 256 == 0
  }

  /** The parser's state, unless it waits for a line, follows from the line. */
  ghost predicate Tracks(s: State, l: Line)
  {
    || s.phase.WaitLine?
    || (s.readMsb == (l.half >= 0) && (l.half >= 0 ==> s.data % 16 == l.half) && TracksBytes(s, l.bytes))
  }

  ghost predicate TracksBytes(s: State, bytes: seq<Octet>)
  {
    match s.phase
    case WaitLine => true
    case ByteCount => bytes == [] && s.checksum == 0
    case AddressHigh => |bytes| == 1 && s.dataRem == bytes[0] && s.checksum == Sum(bytes) % 256
    case AddressLow => |bytes| == 2 && s.dataRem == bytes[0] && s.checksum == Sum(bytes) % 256
    case RecordType => |bytes| == 3 && s.dataRem == bytes[0] && s.checksum == Sum(bytes) % 256
    case ReadData => 4 <= |bytes| < 4 + bytes[0] as int && s.dataRem == 4 + bytes[0] as int - |bytes|
                     && s.recordType == bytes[3] && s.checksum == Sum(bytes) % 256
    case Checksum => 4 <= |bytes| && 4 + bytes[0] as int <= |bytes|
                     && s.recordType == bytes[3] && s.checksum == Sum(bytes[..4 + bytes[0] as int]) % 256
  }

  lemma {:induction false} ByteTracks(s: State, bytes: seq<Octet>)
    requires Valid(s) && TracksBytes(s, bytes) && !s.phase.WaitLine?
    ensures TracksBytes(TakeByte(s), bytes + [s.data])
    ensures TakeByte(s).readMsb == s.readMsb
    ensures TakeByte(s).run == s.run || EndsFile(Line(bytes + [s.data], -1))
  {
    SumNext(bytes, s.data);
    if s.phase.ReadData? {
      DataTracks(s, bytes);
    } else if s.phase.Checksum? {
      ChecksumTracks(s, bytes);
    } else {
      HeaderTracks(s, bytes);
    }
  }

  lemma {:induction false} SumNext(bytes: seq<Octet>, b: Octet)
    ensures Sum(bytes + [b]) == Sum(bytes) + b && Sum(bytes + [b]) % 256 == (Sum(bytes) % 256 + b) % 256
  {
    SumAppend(bytes, [b]);
    assert Sum([b]) == b;
    AddMod(0, Sum(bytes), b);
  }

  lemma {:induction false} HeaderTracks(s: State, bytes: seq<Octet>)
    requires Valid(s) && TracksBytes(s, bytes) && !s.phase.WaitLine? && !s.phase.ReadData? && !s.phase.Checksum?
    ensures TracksBytes(TakeByte(s), bytes + [s.data]) && TakeByte(s).readMsb == s.readMsb && TakeByte(s).run == s.run
  {
    hide Sum, TakeData, TakeChecksum;
    SumNext(bytes, s.data);
    if s.phase.ByteCount? {
      HexTextNone();
    } else if s.phase.RecordType? {
      assert (bytes + [s.data])[..|bytes| + 1] == bytes + [s.data];
    }
  }

  lemma {:induction false} DataTracks(s: State, bytes: seq<Octet>)
    requires Valid(s) && TracksBytes(s, bytes) && s.phase.ReadData?
    ensures TracksBytes(TakeByte(s), bytes + [s.data]) && TakeByte(s).readMsb == s.readMsb && TakeByte(s).run == s.run
  {
    hide Sum, TakeWord, TakeChecksum, ValidFlash;
    SumNext(bytes, s.data);
    var t := s.(checksum := (s.checksum + s.data) % 256, dataRem := s.dataRem - 1);
    WordKeeps(t);
    assert (bytes + [s.data])[..|bytes| + 1] == bytes + [s.data];
  }

  lemma {:induction false} ChecksumTracks(s: State, bytes: seq<Octet>)
    requires Valid(s) && TracksBytes(s, bytes) && s.phase.Checksum?
    ensures TracksBytes(TakeByte(s), bytes + [s.data]) && TakeByte(s).readMsb == s.readMsb
    ensures TakeByte(s).run == s.run || EndsFile(Line(bytes + [s.data], -1))
  {
    hide Sum, TakeData, Write;
    var n: nat := bytes[0];
    assert (bytes + [s.data])[..n + 4] == bytes[..n + 4];
    AddMod(0, Sum(bytes[..n + 4]), s.data);
  }

  lemma {:induction false} WordKeeps(s: State)
    requires Valid(s)
    ensures var r := TakeWord(s);
            r == s.(flash := r.flash, trace := r.trace, base := r.base, addr := r.addr, dirty := r.dirty,
              pageStart := r.pageStart)
  {
    hide Erase, Fill, Write;
  }

  lemma {:induction false} StepTracks(s: State, l: Line, c: char)
    requires Valid(s) && Tracks(s, l) && -1 <= l.half < 16
    ensures Tracks(Step(s, c), Next(l, c))
    ensures Step(s, c).run == s.run || EndsFile(Next(l, c))
  {
    hide TakeByte, TracksBytes, EndsFile;
    if s.phase.WaitLine? || c == ':' {
      StartTracks(s, c);
    } else if HexToDecimal(c) >= 0 {
      var v := HexToDecimal(c);
      var s1 := s.(data := (s.data * 16 + v) % 256, readMsb := !s.readMsb);
      SameBytes(s, s1, l.bytes);
      if !s1.readMsb {
        SecondDigit(s.data, l.half, v);
        ByteTracks(s1, l.bytes);
      } else {
        FirstDigit(s.data, v);
      }
    }
  }

  function Next(l: Line, c: char): Line
    requires -1 <= l.half < 16
  {
    if c == ':' then Line([], -1)
    else if HexToDecimal(c) < 0 then l
    else if l.half < 0 then l.(half := HexToDecimal(c))
    else Line(l.bytes + [l.half * 16 + HexToDecimal(c)], -1)
  }

  lemma {:induction false} StartTracks(s: State, c: char)
    requires s.phase.WaitLine? || c == ':'
    ensures TracksBytes(StartLine(s, c), [])
  {
  }

  lemma {:induction false} SameBytes(s: State, t: State, bytes: seq<Octet>)
    requires t == s.(data := t.data, readMsb := t.readMsb)
    ensures TracksBytes(s, bytes) <==> TracksBytes(t, bytes)
  {
  }

  lemma {:induction false} FirstDigit(d: Octet, v: nat)
    requires v < 16
    ensures (d * 16 + v) % 256 % 16 == v
  {
    var q, r := (d * 16 + v) / 256, (d * 16 + v) % 256;
    assert r == 16 * (d - 16 * q) + v;
    DivModUnique(r, 16, d - 16 * q, v);
  }

  lemma {:induction false} SecondDigit(d: Octet, half: nat, v: nat)
    requires half < 16 && v < 16 && d % 16 == half
    ensures (d * 16 + v) % 256 == half * 16 + v
  {
    DivModUnique(d * 16 + v, 256, d / 16, half * 16 + v);
  }

  lemma {:induction false} RunTracks(s: State, text: string)
    requires Valid(s) && s.phase.WaitLine? && s.run
    ensures Tracks(Run(s, text), LineOf(text))
    ensures Run(s, text).run || exists n :: 0 <= n <= |text| && EndsFile(LineOf(text[..n]))
    decreases |text|
  {
    hide Tracks, Step, EndsFile, ValidFlash;
    if text == [] {
      NothingTracked(s);
    } else {
      var n := |text| - 1;
      var c, front := text[n], text[..n];
      RunTracks(s, front);
      assert text == front + [c];
      RunAppend(s, front, [c]);
      RunOne(Run(s, front), c, []);
      RunNone(Step(Run(s, front), c));
      assert [c] == [c] + [];
      StepTracks(Run(s, front), LineOf(front), c);
      assert LineOf(text) == Next(LineOf(front), c);
      assert text[..|text|] == text;
      if !Run(s, front).run {
        var m :| 0 <= m <= |front| && EndsFile(LineOf(front[..m]));
        assert front[..m] == text[..m];
      }
    }
  }

  lemma {:induction false} NothingTracked(s: State)
    requires Valid(s) && s.phase.WaitLine? && s.run
    ensures Tracks(s, Line([], -1)) && s.run
  {
  }

  /** The loader stops only when an end-of-file record has been read and its sum, with the latest byte, is zero. */
  lemma {:induction false} StopsOnlyAtEnd(s: State, text: string)
    requires Valid(s) && s.phase.WaitLine? && s.run && !Run(s, text).run
    ensures exists n :: 0 <= n <= |text| && EndsFile(LineOf(text[..n]))
  {
    hide Run, EndsFile;
    RunTracks(s, text);
  }

  /**
   The byte behind the data of a line decides: if the line does not add up to zero it does nothing; if it does, an end
   record stops the loader and any other record lets it go on.
   */
  lemma {:induction false} ChecksumDecides(s: State, text: string, ck: Octet)
    requires Valid(s) && s.phase.WaitLine? && s.run && Run(s, text).phase.Checksum? && !Run(s, text).readMsb
    ensures var l, t, u := LineOf(text), Run(s, text), Run(s, text + HexByte(ck));
            && 4 <= |l.bytes| && SummedBytes(l) <= |l.bytes|
            && if (Sum(l.bytes[..SummedBytes(l)]) + ck) % 256 != 0 then u == t.(data := ck)
               else u.run == (t.run && l.bytes[3] != RECORD_END)
  {
    hide Run, HexByte, Sum, Write, PageOf, TakeData;
    var l, t := LineOf(text), Run(s, text);
    RunTracks(s, text);
    RunAppend(s, text, HexByte(ck));
    HexByteParsed(t, ck);
    AddMod(0, Sum(l.bytes[..SummedBytes(l)]), ck);
  }
}
