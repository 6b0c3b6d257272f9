/**
 The HID-class boot loader and the host tool that feeds it: the tool loads an Intel HEX file into an
 image, and sends it page by page in reports.
 */
module Hid {
  import opened Arithmetic
  import opened Flash

  const MAX_MEMORY := 0x1_0000
  const START_APPLICATION := 0xFFFF
  const WRAP := 0x1_0000_0000 // the host tool adds addresses in 32 bits

  // ---------------------------------------------------------------------------
  // The image

  /** A decoded line of a HEX file. */
  datatype Record = Record(len: Octet, addr: nat, code: Octet, data: seq<Octet>, checksum: Octet)

  ghost predicate ValidRecord(r: Record)
  {
    r.addr < 0x1_0000 && |r.data| == r.len
  }

  datatype Image = Image(bytes: seq<Octet>, mask: seq<bool>, extended: nat, count: nat, ended: bool)

  ghost predicate ValidImage(m: Image)
  {
    |m.bytes| == MAX_MEMORY && |m.mask| == MAX_MEMORY && m.extended <= 0xFFFF_0000
  }

  function EmptyImage(): (m: Image)
    ensures ValidImage(m)
  {
    Image(Blank(MAX_MEMORY), seq(MAX_MEMORY, _ => false), 0, 0, false)
  }

  /** The fields of a record and its checksum add up to zero. */
  predicate SumsToZero(r: Record)
  {
    (r.len + r.addr / 256 + r.addr % 256 + r.code + Sum(r.data) + r.checksum) % 256 == 0
  }

  /** How far address k lies behind address a, in 32 bits. */
  function Distance(a: nat, k: nat): nat
  {
    (k - a) % WRAP
  }

  /** Whether the i-th address from a on, in 32 bits, is one of the image's. */
  predicate InImage(a: nat, i: nat)
  {
    (a + i) % WRAP < MAX_MEMORY
  }

  /** Stores bytes from address a on, in 32 bits; a byte for an address outside the image is lost. */
  function PutBytes(bytes: seq<Octet>, a: nat, data: seq<Octet>): (r: seq<Octet>)
    ensures |r| == |bytes|
  {
    seq<Octet>(|bytes|, k requires 0 <= k < |bytes| =>
                 if Distance(a, k) < |data| then data[Distance(a, k)] else bytes[k])
  }

  function PutMask(mask: seq<bool>, a: nat, n: nat): (r: seq<bool>)
    ensures |r| == |mask|
  {
    seq(|mask|, k requires 0 <= k < |mask| => Distance(a, k) < n || mask[k])
  }

  /**
   The image after a record, and whether the record is accepted. A data record whose checksum is wrong has been
   stored already. The range check, like the store, adds in 32 bits.
   */
  function Parse(m: Image, r: Record): (p: (Image, bool))
    requires ValidImage(m) && ValidRecord(r)
    ensures ValidImage(p.0)
  {
    var a := r.addr + m.extended;
    if !InImage(a, r.len) then (m, false)
    else if r.code == 1 then (m.(ended := true), true)
    else if r.code == 2 && r.len == 2 then
      (if SumsToZero(r) then m.(extended := Word(r.data[0], r.data[1]) * 0x10) else m, true)
    else if r.code == 4 && r.len == 2 then
      (if SumsToZero(r) then m.(extended := Word(r.data[0], r.data[1]) * 0x1_0000) else m, true)
    else if r.code != 0 then (m, true)
    else
      (m.(bytes := PutBytes(m.bytes, a, r.data), mask := PutMask(m.mask, a, r.len), count := m.count + r.len),
       SumsToZero(r))
  }

  /** Reads a file: up to the end record, or up to a record that is not accepted. */
  function ParseAll(m: Image, records: seq<Record>): (p: (Image, bool))
    requires ValidImage(m) && forall r :: r in records ==> ValidRecord(r)
    ensures ValidImage(p.0)
    decreases |records|
  {
    if records == [] then (m, true)
    else
      assert records[0] in records;
      var (m1, ok) := Parse(m, records[0]);
      if !ok then (m1, false) else if m1.ended then (m1, true) else ParseAll(m1, records[1..])
  }

  predicate StoredInside(a: nat, n: nat)
  {
    forall i :: 0 <= i < n ==> InImage(a, i)
  }

  /** A data record that passes the range check is stored inside the image if and only if its sum does not wrap. */
  lemma {:induction false} StoresInsideIff(m: Image, r: Record)
    requires ValidImage(m) && ValidRecord(r) && InImage(r.addr + m.extended, r.len)
    ensures StoredInside(r.addr + m.extended, r.len) <==> r.addr + m.extended + r.len < WRAP
  {
    var a := r.addr + m.extended;
    if a + r.len >= WRAP {
      assert !InImage(a, WRAP - 1 - a);
    }
  }

  /** The range check passes for sums inside the image memory, and for those just above 2^32. */
  lemma {:induction false} RangeCheckIff(m: Image, r: Record)
    requires ValidImage(m) && ValidRecord(r)
    ensures var end := r.addr + m.extended + r.len;
            InImage(r.addr + m.extended, r.len) <==>
            end < 0x1_0000 || 0x1_0000_0000 <= end < 0x1_0001_0000
  {
  }

  /** Byte i of a record is stored at its 32-bit address, if that is in the image. */
  lemma {:induction false} StoredAt(bytes: seq<Octet>, mask: seq<bool>, a: nat, data: seq<Octet>, i: nat)
    requires i < |data| < 256 && a < 0x1_0000_0000 && |bytes| == |mask| <= MAX_MEMORY
    ensures var k := if a + i < 0x1_0000_0000 then a + i else a + i - 0x1_0000_0000;
            k < |bytes| ==> PutBytes(bytes, a, data)[k] == data[i] && PutMask(mask, a, |data|)[k]
  {
    var k := if a + i < 0x1_0000_0000 then a + i else a + i - 0x1_0000_0000;
    assert Distance(a, k) == i;
  }

  // ---------------------------------------------------------------------------
  // What a file means

  /** A run of data bytes and the address it belongs to. */
  datatype Run = Run(start: nat, data: seq<Octet>)

  /** The data runs of a file, with their base address applied. */
  function Runs(records: seq<Record>, base: nat): seq<Run>
    requires forall r :: r in records ==> ValidRecord(r)
    decreases |records|
  {
    if records == [] then []
    else
      var r := records[0];
      assert r in records;
      if r.code == 1 then []
      else (if r.code == 0 then [Run(r.addr + base, r.data)] else []) + Runs(records[1..], NextBase(r, base))
  }

  /** An extended address record moves the base, if its checksum is right. */
  function NextBase(r: Record, base: nat): nat
    requires ValidRecord(r)
  {
    if r.code == 2 && r.len == 2 && SumsToZero(r) then Word(r.data[0], r.data[1]) * 0x10
    else if r.code == 4 && r.len == 2 && SumsToZero(r) then Word(r.data[0], r.data[1]) * 0x1_0000
    else base
  }

  predicate Covers(run: Run, a: nat)
  {
    Distance(run.start, a) < |run.data|
  }

  /** The last run that covers an address decides its byte. */
  function ByteAt(runs: seq<Run>, a: nat, before: Octet): Octet
  {
    if runs == [] then before
    else ByteAt(runs[1..], a, if Covers(runs[0], a) then runs[0].data[Distance(runs[0].start, a)] else before)
  }

  function Length(runs: seq<Run>): nat
  {
    if runs == [] then 0 else |runs[0].data| + Length(runs[1..])
  }

  /**
   After an accepted file, the mask is the union of its data runs, the image holds the last byte for each
   address, and the count is right.
   */
  lemma {:induction false} ImageMeansFile(m: Image, records: seq<Record>, a: nat)
    requires ValidImage(m) && !m.ended && (forall r :: r in records ==> ValidRecord(r)) && a < MAX_MEMORY
    requires ParseAll(m, records).1
    ensures var p, runs := ParseAll(m, records).0, Runs(records, m.extended);
            && p.bytes[a] == ByteAt(runs, a, m.bytes[a])
            && (p.mask[a] <==> m.mask[a] || exists run :: run in runs && Covers(run, a))
            && p.count == m.count + Length(runs)
    decreases |records|
  {
    hide Parse, NextBase, Covers;
    if records != [] {
      var r := records[0];
      assert r in records;
      var (m1, ok) := Parse(m, r);
      ParsedAt(m, r, a);
      if r.code != 1 {
        var rest := Runs(records[1..], NextBase(r, m.extended));
        ImageMeansFile(m1, records[1..], a);
        if r.code == 0 {
          var run := Run(r.addr + m.extended, r.data);
          assert Runs(records, m.extended) == [run] + rest;
          assert ([run] + rest)[1..] == rest;
          assert forall x :: x in [run] + rest <==> x == run || x in rest;
        } else {
          assert Runs(records, m.extended) == [] + rest == rest;
        }
      }
    }
  }

  /** What an accepted record does at an address. */
  lemma {:induction false} ParsedAt(m: Image, r: Record, a: nat)
    requires ValidImage(m) && !m.ended && ValidRecord(r) && a < MAX_MEMORY && Parse(m, r).1
    ensures var m1, run := Parse(m, r).0, Run(r.addr + m.extended, r.data);
            var hit := r.code == 0 && Covers(run, a);
            && m1.bytes[a] == (if hit then run.data[Distance(run.start, a)] else m.bytes[a])
            && m1.mask[a] == (hit || m.mask[a])
            && m1.count == m.count + (if r.code == 0 then |r.data| else 0)
            && m1.extended == NextBase(r, m.extended) && m1.ended == (r.code == 1)
  {
    hide SumsToZero;
  }

  // ---------------------------------------------------------------------------
  // The reports

  /** Some byte of the range, which must lie in the image memory, was loaded. */
  predicate AnyWithin(m: Image, first: nat, last: nat)
    requires |m.mask| == MAX_MEMORY
  {
    last < MAX_MEMORY && exists i :: first <= i <= last && m.mask[i]
  }

  /** The bytes to send for a block: the loaded ones, and blanks. The block that ends the image memory is sent blank. */
  function BlockData(m: Image, a: nat, n: nat): (r: seq<Octet>)
    requires ValidImage(m)
    ensures |r| == n
  {
    seq<Octet>(n, i requires 0 <= i < n => if a + n < MAX_MEMORY && m.mask[a + i] then m.bytes[a + i] else BLANK)
  }

  /** How the host encodes a block address, which depends on the size of the part. */
  function AddressWord(a: nat, codeSize: nat): nat
  {
    if codeSize < 0x1_0000 then a % 0x1_0000 else a / 256 % 0x1_0000
  }

  function Report(word: nat, data: seq<Octet>): (r: seq<Octet>)
    ensures |r| == 2 + |data|
  {
    [word % 256, word / 256 % 256] + data
  }

  predicate IsSent(m: Image, a: nat, block: nat)
    requires ValidImage(m) && block > 0
  {
    a == 0 || AnyWithin(m, a, a + block - 1)
  }

  /** The reports for the blocks from a on. */
  function Reports(m: Image, codeSize: nat, block: nat, a: nat): seq<seq<Octet>>
    requires ValidImage(m) && block > 0
    decreases codeSize - a
  {
    if a >= codeSize then []
    else
      (if IsSent(m, a, block) then [Report(AddressWord(a, codeSize), BlockData(m, a, block))] else [])
      + Reports(m, codeSize, block, a + block)
  }

  // ---------------------------------------------------------------------------
  // The device

  /** The device: wide if it has more than 64 KB of flash, so that addresses count in 256 bytes. */
  datatype Device = Device(flash: Flash, run: bool, wide: bool)

  ghost predicate ValidDevice(d: Device)
  {
    ValidFlash(d.flash) && d.flash.temp == Blank(PageSize(d.flash)) && PageSize(d.flash) < 512
  }

  function PageAddress(wide: bool, word: nat): nat
  {
    if wide then word * 256 else word
  }

  /** Loads the words of a page, from word i on. */
  function FillPage(f: Flash, a: nat, data: seq<Octet>, i: nat): (r: Flash)
    requires ValidFlash(f) && |data| == PageSize(f) && i <= PageSize(f) / 2
    ensures ValidFlash(r) && PageSize(r) == PageSize(f) && r.mem == f.mem
    decreases PageSize(f) / 2 - i
  {
    if i == PageSize(f) / 2 then f else FillPage(Fill(f, a + 2 * i, data[2 * i], data[2 * i + 1]), a, data, i + 1)
  }

  function SetReport(d: Device, report: seq<Octet>): (r: Device)
    requires ValidDevice(d) && |report| == 2 + PageSize(d.flash)
    ensures ValidDevice(r) && PageSize(r.flash) == PageSize(d.flash) && |r.flash.mem| == |d.flash.mem|
    ensures r.wide == d.wide
  {
    var word := Word(report[1], report[0]);
    if word == START_APPLICATION then d.(run := false)
    else
      var a := PageAddress(d.wide, word);
      d.(flash := Write(FillPage(Erase(d.flash, a), a, report[2..], 0), a))
  }

  predicate Sized(reports: seq<seq<Octet>>, n: nat)
  {
    forall x :: x in reports ==> |x| == n
  }

  function SetReports(d: Device, reports: seq<seq<Octet>>): (r: Device)
    requires ValidDevice(d) && Sized(reports, 2 + PageSize(d.flash))
    ensures ValidDevice(r) && PageSize(r.flash) == PageSize(d.flash) && |r.flash.mem| == |d.flash.mem|
    ensures r.wide == d.wide
    decreases |reports|
  {
    if reports == [] then d
    else
      assert reports[0] in reports;
      SetReports(SetReport(d, reports[0]), reports[1..])
  }

  lemma {:induction false} FillPageLoads(mem: seq<Octet>, size: nat, pg: nat, data: seq<Octet>, i: nat)
    requires IsPage(mem, size, pg) && |data| == size && i <= size / 2
    ensures ValidFlash(InPage(mem, size, pg, data[..2 * i]))
    ensures FillPage(InPage(mem, size, pg, data[..2 * i]), pg, data, i) == InPage(mem, size, pg, data)
    decreases size / 2 - i
  {
    hide Fill, SetPage;
    if i == size / 2 {
      assert data[..2 * i] == data;
    } else {
      FillAdds(mem, size, pg, data[..2 * i], data[2 * i], data[2 * i + 1]);
      assert data[..2 * i] + [data[2 * i], data[2 * i + 1]] == data[..2 * (i + 1)];
      FillPageLoads(mem, size, pg, data, i + 1);
    }
  }

  /** A report for the start of a page replaces that page. */
  lemma {:induction false} ReportPrograms(d: Device, word: nat, data: seq<Octet>)
    requires ValidDevice(d) && |data| == PageSize(d.flash) && word < START_APPLICATION
    requires IsPage(d.flash.mem, PageSize(d.flash), PageAddress(d.wide, word))
    ensures SetReport(d, Report(word, data)) ==
            d.(flash := Idle(SetPage(d.flash.mem, PageAddress(d.wide, word), data), PageSize(d.flash)))
  {
    hide Write, Erase, FillPage, SetPage;
    var mem, size, pg := d.flash.mem, PageSize(d.flash), PageAddress(d.wide, word);
    var report := Report(word, data);
    assert report[2..] == data && Word(report[1], report[0]) == word;
    EraseStarts(mem, size, pg, 0);
    assert data[..0] == [];
    FillPageLoads(mem, size, pg, data, 0);
    WriteStores(mem, size, pg, data, 0);
    assert Padded(data, size) == data;
  }

  /** A report as it is sent: two bytes of address, low one first, and a page. FF FF stops the loader. */
  lemma {:induction false} ReportBytes(d: Device, lo: Octet, hi: Octet, data: seq<Octet>)
    requires ValidDevice(d) && |data| == PageSize(d.flash)
    ensures var r := SetReport(d, [lo, hi] + data);
            var a := (hi * 256 + lo) * if d.wide then 256 else 1;
            if lo == hi == 0xFF then r == d.(run := false)
            else r.run == d.run && (IsPage(d.flash.mem, PageSize(d.flash), a) ==>
                                    r.flash.mem == SetPage(d.flash.mem, a, data))
  {
    hide Write, Erase, FillPage, SetPage, ValidFlash;
    var word := Word(hi, lo);
    assert Report(word, data) == [lo, hi] + data;
    if word < START_APPLICATION && IsPage(d.flash.mem, PageSize(d.flash), PageAddress(d.wide, word)) {
      ReportPrograms(d, word, data);
    }
  }

  // ---------------------------------------------------------------------------
  // The two together

  /** The part sizes and block sizes that the host tool knows. */
  predicate KnownPart(codeSize: nat, block: nat)
  {
    || (block == 128 && (codeSize == 0x2000 || codeSize == 0x4000 || codeSize == 0x8000))
    || (block == 256 && (codeSize == 0x1_0000 || codeSize == 0x2_0000))
  }

  /** A device of that part: its pages are the blocks, and its addresses are as wide as its flash requires. */
  ghost predicate IsPart(d: Device, codeSize: nat, block: nat)
  {
    && ValidDevice(d) && KnownPart(codeSize, block) && PageSize(d.flash) == block
    && |d.flash.mem| == codeSize && d.wide == (codeSize > 0x1_0000)
  }

  lemma {:induction false} ReportsFit(m: Image, codeSize: nat, block: nat, a: nat)
    requires ValidImage(m) && block > 0
    ensures Sized(Reports(m, codeSize, block, a), 2 + block)
    decreases codeSize - a
  {
    if a < codeSize {
      ReportsFit(m, codeSize, block, a + block);
    }
  }

  /** The byte that address x should hold once the blocks from a on have been sent. */
  function Expected(m: Image, codeSize: nat, block: nat, a: nat, x: nat, before: Octet): Octet
    requires ValidImage(m) && block > 0
  {
    var pg := PageOf(x, block);
    if a <= x < codeSize && IsSent(m, pg, block) then BlockData(m, pg, block)[x - pg] else before
  }

  /** The host's address word denotes the block's own page, and never the start command. */
  lemma {:induction false} WordDenotesPage(codeSize: nat, block: nat, a: nat)
    requires KnownPart(codeSize, block) && codeSize != 0x1_0000 && a < codeSize && a % block == 0
    ensures var word := AddressWord(a, codeSize);
            word < START_APPLICATION && PageAddress(codeSize > 0x1_0000, word) == a
    ensures a + block <= codeSize
  {
    var q := a / block;
    assert a == block * q;
    if block == 256 {
      assert a / 256 == q;
    } else {
      assert a == 2 * (64 * q);
    }
  }

  /** The device after the block at a has been sent, or skipped. */
  function SendBlock(d: Device, m: Image, codeSize: nat, block: nat, a: nat): (r: Device)
    requires ValidDevice(d) && ValidImage(m) && block > 0 && PageSize(d.flash) == block
    ensures ValidDevice(r) && PageSize(r.flash) == block && |r.flash.mem| == |d.flash.mem| && r.wide == d.wide
  {
    if IsSent(m, a, block) then SetReport(d, Report(AddressWord(a, codeSize), BlockData(m, a, block))) else d
  }

  lemma {:induction false} SendsNext(d: Device, m: Image, codeSize: nat, block: nat, a: nat)
    requires ValidDevice(d) && ValidImage(m) && block > 0 && PageSize(d.flash) == block && a < codeSize
    ensures Sized(Reports(m, codeSize, block, a), 2 + block)
    ensures Sized(Reports(m, codeSize, block, a + block), 2 + block)
    ensures SetReports(d, Reports(m, codeSize, block, a)) ==
            SetReports(SendBlock(d, m, codeSize, block, a), Reports(m, codeSize, block, a + block))
  {
    hide SetReport, BlockData, IsSent, Report, AddressWord;
    ReportsFit(m, codeSize, block, a);
    ReportsFit(m, codeSize, block, a + block);
    var rest := Reports(m, codeSize, block, a + block);
    if IsSent(m, a, block) {
      var report := Report(AddressWord(a, codeSize), BlockData(m, a, block));
      assert ([report] + rest)[1..] == rest;
    } else {
      assert [] + rest == rest;
    }
  }

  lemma {:induction false} ExpectedNext(m: Image, codeSize: nat, block: nat, a: nat, x: nat, before: Octet)
    requires ValidImage(m) && StartsBlock(a, block) && a + block <= codeSize
    ensures Expected(m, codeSize, block, a, x, before) ==
            if a <= x < a + block
            then (if IsSent(m, a, block) then BlockData(m, a, block)[x - a] else before)
            else Expected(m, codeSize, block, a + block, x, before)
  {
    hide BlockData, IsSent;
    if a <= x < a + block {
      PageOfOffset(a, x - a, block);
    }
  }

  predicate StartsBlock(a: nat, block: nat)
  {
    block > 0 && a % block == 0
  }

  lemma {:induction false} NextBlock(a: nat, block: nat)
    requires StartsBlock(a, block)
    ensures StartsBlock(a + block, block) && block > 0
  {
    NextPage(a, block);
  }

  /** From any block on: the sent blocks hold their data, the others are unchanged, and the loader keeps running. */
  lemma {:induction false} SendsBlocks(d: Device, m: Image, codeSize: nat, block: nat, a: nat, x: nat)
    requires IsPart(d, codeSize, block) && codeSize != 0x1_0000 && ValidImage(m) && StartsBlock(a, block)
    requires x < codeSize
    ensures Sized(Reports(m, codeSize, block, a), 2 + block)
    ensures var e := SetReports(d, Reports(m, codeSize, block, a));
            e.run == d.run && e.flash.mem[x] == Expected(m, codeSize, block, a, x, d.flash.mem[x])
    decreases codeSize - a
  {
    hide BlockData, IsSent, SendBlock, IsPart, ValidDevice, ValidImage, Expected, Reports, SetReports, Sized,
         StartsBlock;
    NextBlock(a, block);
    PartFacts(d, codeSize, block);
    ReportsFit(m, codeSize, block, a);
    if a >= codeSize {
      NothingLeft(d, m, codeSize, block, a);
      ExpectedBefore(m, codeSize, block, a, x, d.flash.mem[x]);
      return;
    }
    SendsNext(d, m, codeSize, block, a);
    OneBlock(d, m, codeSize, block, a, x);
    var d1 := SendBlock(d, m, codeSize, block, a);
    SendsBlocks(d1, m, codeSize, block, a + block, x);
    ExpectedNext(m, codeSize, block, a, x, d.flash.mem[x]);
    if a <= x < a + block {
      ExpectedBefore(m, codeSize, block, a + block, x, d1.flash.mem[x]);
    }
  }

  lemma {:induction false} PartFacts(d: Device, codeSize: nat, block: nat)
    requires IsPart(d, codeSize, block)
    ensures ValidDevice(d) && PageSize(d.flash) == block && block > 0 && |d.flash.mem| == codeSize
  {
  }

  lemma {:induction false} NothingLeft(d: Device, m: Image, codeSize: nat, block: nat, a: nat)
    requires ValidDevice(d) && ValidImage(m) && block > 0 && PageSize(d.flash) == block
    requires Sized(Reports(m, codeSize, block, a), 2 + block)
    ensures a >= codeSize ==> SetReports(d, Reports(m, codeSize, block, a)) == d
  {
  }

  lemma {:induction false} OneBlock(d: Device, m: Image, codeSize: nat, block: nat, a: nat, x: nat)
    requires IsPart(d, codeSize, block) && codeSize != 0x1_0000 && ValidImage(m) && StartsBlock(a, block)
    requires x < codeSize && a < codeSize
    ensures a + block <= codeSize
    ensures var d1 := SendBlock(d, m, codeSize, block, a);
            && IsPart(d1, codeSize, block) && d1.run == d.run
            && d1.flash.mem[x] == if a <= x < a + block
            && IsSent(m, a, block) then BlockData(m, a, block)[x - a] else d.flash.mem[x]
  {
    hide SetReport, BlockData, IsSent, Report, AddressWord, ValidFlash;
    WordDenotesPage(codeSize, block, a);
    if IsSent(m, a, block) {
      PartPage(d, codeSize, block, a);
      ReportPrograms(d, AddressWord(a, codeSize), BlockData(m, a, block));
    }
  }

  lemma {:induction false} ExpectedBefore(m: Image, codeSize: nat, block: nat, a: nat, x: nat, before: Octet)
    requires ValidImage(m) && block > 0
    ensures x < a || codeSize <= a ==> Expected(m, codeSize, block, a, x, before) == before
  {
    hide BlockData, IsSent;
  }

  lemma {:induction false} PartPage(d: Device, codeSize: nat, block: nat, a: nat)
    requires IsPart(d, codeSize, block) && a % block == 0 && a + block <= codeSize
    ensures IsPage(d.flash.mem, block, a)
  {
  }

  function RebootReport(block: nat): (r: seq<Octet>)
    ensures |r| == 2 + block && r[0] == r[1] == 0xFF && forall i :: 2 <= i < |r| ==> r[i] == 0
  {
    Report(START_APPLICATION, seq<Octet>(block, _ => 0))
  }

  /** The device after all blocks, and after the reboot report that follows them. */
  function AfterBlocks(d: Device, m: Image, codeSize: nat, block: nat): (r: Device)
    requires ValidDevice(d) && ValidImage(m) && block > 0 && PageSize(d.flash) == block
  {
    ReportsFit(m, codeSize, block, 0);
    SetReports(d, Reports(m, codeSize, block, 0))
  }

  function Rebooted(d: Device, m: Image, codeSize: nat, block: nat): (r: Device)
    requires ValidDevice(d) && ValidImage(m) && block > 0 && PageSize(d.flash) == block
  {
    SetReport(AfterBlocks(d, m, codeSize, block), RebootReport(block))
  }

  /** No program report stops the loader, the reboot report does, and every byte is as expected. */
  lemma {:induction false} SessionPrograms(d: Device, m: Image, codeSize: nat, block: nat, x: nat)
    requires IsPart(d, codeSize, block) && codeSize != 0x1_0000 && ValidImage(m) && x < codeSize
    ensures AfterBlocks(d, m, codeSize, block).run == d.run && !Rebooted(d, m, codeSize, block).run
    ensures Rebooted(d, m, codeSize, block).flash == AfterBlocks(d, m, codeSize, block).flash
    ensures |AfterBlocks(d, m, codeSize, block).flash.mem| == codeSize
    ensures AfterBlocks(d, m, codeSize, block).flash.mem[x] == Expected(m, codeSize, block, 0, x, d.flash.mem[x])
  {
    hide Expected, Reports, SetReports, ValidImage;
    SendsBlocks(d, m, codeSize, block, 0, x);
    RebootStops(AfterBlocks(d, m, codeSize, block), block);
  }

  lemma {:induction false} RebootStops(d: Device, block: nat)
    requires ValidDevice(d) && PageSize(d.flash) == block
    ensures SetReport(d, RebootReport(block)) == d.(run := false)
  {
    hide ValidFlash, FillPage, Write, Erase;
    var report := RebootReport(block);
    assert report[0] == 0xFF && report[1] == 0xFF && Word(report[1], report[0]) == START_APPLICATION;
  }

  /** Every byte of a sent block is the image's byte where one was loaded, and blank elsewhere. */
  ghost predicate HoldsImage(mem: seq<Octet>, m: Image, block: nat)
    requires ValidImage(m) && block > 0
  {
    forall x: nat :: x < |mem| && IsSent(m, PageOf(x, block), block) ==> mem[x] == ImageByte(m, x)
  }

  function ImageByte(m: Image, x: nat): Octet
    requires ValidImage(m)
  {
    if x < MAX_MEMORY && m.mask[x] then m.bytes[x] else BLANK
  }

  /** Whatever was loaded into the block that ends the image memory is blank. */
  ghost predicate LastBlockBlank(m: Image, block: nat)
    requires ValidImage(m)
  {
    forall x: nat :: MAX_MEMORY - block <= x < MAX_MEMORY ==> ImageByte(m, x) == BLANK
  }

  lemma {:induction false} ExpectedIsImage(m: Image, codeSize: nat, block: nat, x: nat, before: Octet)
    requires KnownPart(codeSize, block) && ValidImage(m) && x < codeSize && IsSent(m, PageOf(x, block), block)
    ensures PageOf(x, block) + block < MAX_MEMORY ==> Expected(m, codeSize, block, 0, x, before) == ImageByte(m, x)
    ensures PageOf(x, block) + block >= MAX_MEMORY ==> Expected(m, codeSize, block, 0, x, before) == BLANK
  {
    hide IsSent;
  }

  /**
   On parts below 64 KB the image always arrives; on larger ones it does if and only if the last block of image
   memory is blank.
   */
  lemma {:induction false} ArrivesIff(d: Device, m: Image, codeSize: nat, block: nat)
    requires IsPart(d, codeSize, block) && codeSize != 0x1_0000 && ValidImage(m)
    ensures HoldsImage(AfterBlocks(d, m, codeSize, block).flash.mem, m, block) <==>
            codeSize < MAX_MEMORY || LastBlockBlank(m, block)
  {
    PartFacts(d, codeSize, block);
    assert codeSize > 0;
    hide AfterBlocks, IsSent, ImageByte, IsPart, ValidImage, PageOf, ValidDevice, LastBlockBlank;
    SessionPrograms(d, m, codeSize, block, 0);
    var mem := AfterBlocks(d, m, codeSize, block).flash.mem;
    if codeSize < MAX_MEMORY || LastBlockBlank(m, block) {
      forall x: nat | x < |mem| && IsSent(m, PageOf(x, block), block) ensures mem[x] == ImageByte(m, x) {
        ByteArrives(d, m, codeSize, block, x);
      }
    } else {
      var x := ByteLost(d, m, codeSize, block);
    }
  }

  lemma {:induction false} ByteArrives(d: Device, m: Image, codeSize: nat, block: nat, x: nat)
    requires IsPart(d, codeSize, block) && codeSize != 0x1_0000 && ValidImage(m) && x < codeSize
    requires codeSize < MAX_MEMORY || LastBlockBlank(m, block)
    requires IsSent(m, PageOf(x, block), block)
    ensures |AfterBlocks(d, m, codeSize, block).flash.mem| == codeSize
    ensures AfterBlocks(d, m, codeSize, block).flash.mem[x] == ImageByte(m, x)
  {
    hide AfterBlocks, Expected, IsSent, ImageByte, ValidImage, PageOf, ValidDevice;
    SessionPrograms(d, m, codeSize, block, x);
    ExpectedIsImage(m, codeSize, block, x, d.flash.mem[x]);
    BlockEnds(codeSize, block, x);
    SentInMemory(m, x, block);
  }

  lemma {:induction false} ByteLost(d: Device, m: Image, codeSize: nat, block: nat) returns (x: nat)
    requires IsPart(d, codeSize, block) && codeSize > 0x1_0000 && ValidImage(m) && !LastBlockBlank(m, block)
    ensures x < codeSize && IsSent(m, PageOf(x, block), block)
    ensures |AfterBlocks(d, m, codeSize, block).flash.mem| == codeSize
    ensures AfterBlocks(d, m, codeSize, block).flash.mem[x] != ImageByte(m, x)
  {
    x :| MAX_MEMORY - block <= x < MAX_MEMORY && ImageByte(m, x) != BLANK;
    LoadedIsSent(m, x, block);
    hide AfterBlocks, Expected, IsSent, ValidDevice;
    SessionPrograms(d, m, codeSize, block, x);
    ExpectedIsImage(m, codeSize, block, x, d.flash.mem[x]);
  }

  lemma {:induction false} BlockEnds(codeSize: nat, block: nat, x: nat)
    requires KnownPart(codeSize, block) && x < codeSize
    ensures PageOf(x, block) + block <= codeSize
    ensures PageOf(x, block) + block >= MAX_MEMORY ==> x >= MAX_MEMORY - block
  {
    var pg := PageOf(x, block);
    DivModUnique(pg, block, x / block, 0);
  }

  lemma {:induction false} SentInMemory(m: Image, x: nat, block: nat)
    requires ValidImage(m) && (block == 128 || block == 256) && IsSent(m, PageOf(x, block), block)
    ensures x < MAX_MEMORY
  {
  }

  /** A block with a loaded byte is sent. */
  lemma {:induction false} LoadedIsSent(m: Image, x: nat, block: nat)
    requires ValidImage(m) && x < MAX_MEMORY && m.mask[x] && (block == 128 || block == 256)
    ensures IsSent(m, PageOf(x, block), block)
    ensures x >= MAX_MEMORY - block ==> PageOf(x, block) + block >= MAX_MEMORY
  {
    var pg := PageOf(x, block);
    DivModUnique(pg, block, x / block, 0);
    assert pg + block <= MAX_MEMORY;
  }

  // ---------------------------------------------------------------------------
  // From the file to the flash

  ghost predicate InSomeRun(runs: seq<Run>, a: nat)
  {
    exists run :: run in runs && Covers(run, a)
  }

  /** The file puts a byte into the block; the first block counts always. */
  ghost predicate UsesBlock(runs: seq<Run>, a: nat, block: nat)
  {
    a == 0 || exists i: nat :: a <= i < a + block && InSomeRun(runs, i)
  }

  /** What the flash holds once a file with these runs has been sent. */
  ghost function FileByte(runs: seq<Run>, block: nat, x: nat, before: Octet): Octet
    requires block > 0
  {
    if UsesBlock(runs, PageOf(x, block), block) then ByteAt(runs, x, BLANK) else before
  }

  lemma {:induction false} ByteAtUncovered(runs: seq<Run>, a: nat, before: Octet)
    requires !InSomeRun(runs, a)
    ensures ByteAt(runs, a, before) == before
  {
    if runs != [] {
      assert runs[0] in runs;
      assert forall run :: run in runs[1..] ==> run in runs;
      ByteAtUncovered(runs[1..], a, before);
    }
  }

  lemma {:induction false} ImageOfFile(records: seq<Record>, a: nat)
    requires (forall r :: r in records ==> ValidRecord(r)) && a < MAX_MEMORY && ParseAll(EmptyImage(), records).1
    ensures var m, runs := ParseAll(EmptyImage(), records).0, Runs(records, 0);
            m.mask[a] == InSomeRun(runs, a) && ImageByte(m, a) == ByteAt(runs, a, BLANK)
  {
    hide ParseAll, Runs, Covers, ByteAt;
    ImageMeansFile(EmptyImage(), records, a);
    var runs := Runs(records, 0);
    if !InSomeRun(runs, a) {
      ByteAtUncovered(runs, a, BLANK);
    }
  }

  lemma {:induction false} FileUsesBlock(records: seq<Record>, a: nat, block: nat)
    requires (forall r :: r in records ==> ValidRecord(r)) && ParseAll(EmptyImage(), records).1
    requires block > 0 && a + block <= MAX_MEMORY
    ensures IsSent(ParseAll(EmptyImage(), records).0, a, block) == UsesBlock(Runs(records, 0), a, block)
  {
    hide ParseAll, Runs, InSomeRun, ImageByte;
    forall i: nat | i < MAX_MEMORY ensures ParseAll(EmptyImage(), records).0.mask[i] == InSomeRun(Runs(records, 0), i) {
      ImageOfFile(records, i);
    }
  }

  /**
   A file that the tool accepts arrives in flash on every part below 64 KB: used blocks hold the file's last byte
   for every address, and blanks, and all other blocks are as before.
   */
  lemma {:induction false} FileArrives(d: Device, records: seq<Record>, codeSize: nat, block: nat, x: nat)
    requires IsPart(d, codeSize, block) && codeSize < MAX_MEMORY && x < codeSize
    requires (forall r :: r in records ==> ValidRecord(r)) && ParseAll(EmptyImage(), records).1
    ensures var e := AfterBlocks(d, ParseAll(EmptyImage(), records).0, codeSize, block);
            |e.flash.mem| == codeSize && e.flash.mem[x] == FileByte(Runs(records, 0), block, x, d.flash.mem[x])
  {
    hide AfterBlocks, ParseAll, Runs, IsSent, UsesBlock, ImageByte, PageOf, ByteAt, Expected, ValidDevice;
    var m := ParseAll(EmptyImage(), records).0;
    BlockEnds(codeSize, block, x);
    FileUsesBlock(records, PageOf(x, block), block);
    ImageOfFile(records, x);
    SessionPrograms(d, m, codeSize, block, x);
    if IsSent(m, PageOf(x, block), block) {
      ByteArrives(d, m, codeSize, block, x);
    } else {
      NotExpected(m, codeSize, block, x, d.flash.mem[x]);
    }
  }

  lemma {:induction false} NotExpected(m: Image, codeSize: nat, block: nat, x: nat, before: Octet)
    requires ValidImage(m) && block > 0 && !IsSent(m, PageOf(x, block), block)
    ensures Expected(m, codeSize, block, 0, x, before) == before
  {
    hide IsSent;
  }

  // ---------------------------------------------------------------------------
  // Parts of exactly 64 KB

  /** A report for an address in the first page leaves all other pages alone. */
  lemma {:induction false} FirstPageReport(d: Device, word: nat, data: seq<Octet>, x: nat)
    requires ValidDevice(d) && !d.wide && |data| == PageSize(d.flash) && word < PageSize(d.flash)
    requires PageSize(d.flash) <= x < |d.flash.mem|
    ensures SetReport(d, Report(word, data)).flash.mem[x] == d.flash.mem[x]
  {
    hide FillPage, Erase, Write, ValidFlash;
    var report := Report(word, data);
    assert Word(report[1], report[0]) == word;
    var erased := Erase(d.flash, word);
    var filled := FillPage(erased, word, report[2..], 0);
    FirstPageErase(d.flash, word, x);
    FirstPageWrite(filled, word, x);
  }

  lemma {:induction false} FirstPageErase(f: Flash, a: nat, x: nat)
    requires ValidFlash(f) && a < PageSize(f) <= x < |f.mem|
    ensures Erase(f, a).mem[x] == f.mem[x]
  {
    PageOfOffset(0, a, PageSize(f));
  }

  lemma {:induction false} FirstPageWrite(f: Flash, a: nat, x: nat)
    requires ValidFlash(f) && a < PageSize(f) <= x < |f.mem|
    ensures Write(f, a).mem[x] == f.mem[x]
  {
    hide AfterBlocks;
    PageOfOffset(0, a, PageSize(f));
  }

  /**
   The host numbers the blocks of a 64 KB part, but the device takes the number for an address: all reports go to
   the first page.
   */
  lemma {:induction false} OnlyFirstPage(d: Device, m: Image, a: nat, x: nat)
    requires IsPart(d, 0x1_0000, 256) && ValidImage(m) && StartsBlock(a, 256) && 256 <= x < 0x1_0000
    ensures Sized(Reports(m, 0x1_0000, 256, a), 2 + 256)
    ensures SetReports(d, Reports(m, 0x1_0000, 256, a)).flash.mem[x] == d.flash.mem[x]
    decreases 0x1_0000 - a
  {
    hide BlockData, IsSent, SendBlock, ValidDevice, ValidImage, Reports, SetReports, Sized, StartsBlock;
    NextBlock(a, 256);
    PartFacts(d, 0x1_0000, 256);
    ReportsFit(m, 0x1_0000, 256, a);
    if a >= 0x1_0000 {
      NothingLeft(d, m, 0x1_0000, 256, a);
      return;
    }
    SendsNext(d, m, 0x1_0000, 256, a);
    FirstPageBlock(d, m, a, x);
    OnlyFirstPage(SendBlock(d, m, 0x1_0000, 256, a), m, a + 256, x);
  }

  lemma {:induction false} FirstPageBlock(d: Device, m: Image, a: nat, x: nat)
    requires IsPart(d, 0x1_0000, 256) && ValidImage(m) && a < 0x1_0000 && 256 <= x < 0x1_0000
    ensures SendBlock(d, m, 0x1_0000, 256, a).flash.mem[x] == d.flash.mem[x]
  {
    hide BlockData, IsSent, SetReport, Report;
    if IsSent(m, a, 256) {
      FirstPageReport(d, AddressWord(a, 0x1_0000), BlockData(m, a, 256), x);
    }
  }

  /** An image with a single loaded byte. */
  function OneByte(x: nat, b: Octet): (m: Image)
    requires x < MAX_MEMORY
    ensures ValidImage(m)
  {
    var e := EmptyImage();
    e.(bytes := e.bytes[x := b], mask := e.mask[x := true])
  }

  /**
   Among the parts that the host tool knows, every image that leaves the last block blank arrives, except on the
   64 KB part.
   */
  lemma {:induction false} FaithfulPartsIff(d: Device, codeSize: nat, block: nat)
    requires IsPart(d, codeSize, block)
    ensures (forall m: Image :: ValidImage(m) && LastBlockBlank(m, block) ==>
            HoldsImage(AfterBlocks(d, m, codeSize, block).flash.mem, m, block))
            <==> codeSize != 0x1_0000
  {
    hide AfterBlocks, HoldsImage, LastBlockBlank;
    if codeSize != 0x1_0000 {
      forall m: Image | ValidImage(m) && LastBlockBlank(m, block)
        ensures HoldsImage(AfterBlocks(d, m, codeSize, block).flash.mem, m, block) {
        ArrivesIff(d, m, codeSize, block);
      }
    } else {
      var b := if d.flash.mem[256] == 0 then 1 else 0;
      var m := OneByte(256, b);
      LostByte(d, m, b);
      assert ValidImage(m) && LastBlockBlank(m, block);
    }
  }

  lemma {:induction false} OneByteImage(b: Octet)
    ensures var m := OneByte(256, b);
            m.mask[256] && ImageByte(m, 256) == b && LastBlockBlank(m, 256)
  {
  }

  lemma {:induction false} LostByte(d: Device, m: Image, b: Octet)
    requires IsPart(d, 0x1_0000, 256) && m == OneByte(256, b) && d.flash.mem[256] != b
    ensures LastBlockBlank(m, 256) && !HoldsImage(AfterBlocks(d, m, 0x1_0000, 256).flash.mem, m, 256)
  {
    hide Reports, SetReports, OneByte, ImageByte, LastBlockBlank, IsSent, ValidDevice, ValidImage, HoldsImage, IsPart,
         PageOf;
    OneByteImage(b);
    PartFacts(d, 0x1_0000, 256);
    NextBlockZero();
    OnlyFirstPage(d, m, 0, 256);
    LoadedIsSent(m, 256, 256);
    NotHeld(AfterBlocks(d, m, 0x1_0000, 256).flash.mem, m, 256, 256);
  }

  lemma {:induction false} NotHeld(mem: seq<Octet>, m: Image, block: nat, x: nat)
    requires ValidImage(m) && block > 0 && x < |mem| && IsSent(m, PageOf(x, block), block) && mem[x] != ImageByte(m, x)
    ensures !HoldsImage(mem, m, block)
  {
  }

  lemma {:induction false} NextBlockZero()
    ensures StartsBlock(0, 256)
  {
  }
}
