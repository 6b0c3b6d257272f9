/** The host tool and the HID-class boot loader themselves: their variables, and the loops that update them. */
module HidTools {
  import opened Arithmetic
  import opened Flash
  import opened Hid
  import opened HidText

  class BootLoader {
    var flash: Flash
    var runBootloader: bool
    const wide: bool

    ghost function Device(): Device
      reads this
    {
      Hid.Device.Device(flash, runBootloader, wide)
    }

    constructor (flash: Flash, wide: bool)
      ensures Device() == Hid.Device.Device(flash, true, wide)
    {
      this.flash, this.runBootloader, this.wide := flash, true, wide;
    }

    /** Handles a SetReport request: programs a page, or stops. */
    method Receive(report: seq<Octet>)
      requires ValidDevice(Device()) && |report| == 2 + PageSize(flash)
      modifies this
      ensures Device() == SetReport(old(Device()), report)
    {
      hide Fill, Erase, Write;
      var word := Word(report[1], report[0]);
      if word == START_APPLICATION {
        runBootloader := false;
        return;
      }
      var address := PageAddress(wide, word);
      flash := Erase(flash, address);
      ghost var erased := flash;
      assert report[2..][..] == report[2..];
      var i := 0;
      while i < PageSize(flash) / 2
        modifies this`flash
        invariant ValidFlash(flash) && PageSize(flash) == PageSize(erased) == |report| - 2 &&
                  0 <= i <= PageSize(flash) / 2
        invariant FillPage(flash, address, report[2..], i) == FillPage(erased, address, report[2..], 0)
      {
        assert report[2..][2 * i] == report[2 + 2 * i] && report[2..][2 * i + 1] == report[3 + 2 * i];
        flash := Fill(flash, address + 2 * i, report[2 + 2 * i], report[3 + 2 * i]);
        i := i + 1;
      }
      flash := Write(flash, address);
    }
  }

  class HostTool {
    const firmwareImage: array<Octet>
    const firmwareMask: array<bool>
    var endRecordSeen: bool
    var byteCount: nat
    var extendedAddr: nat

    ghost predicate Valid()
      reads this
    {
      firmwareImage.Length == MAX_MEMORY && firmwareMask.Length == MAX_MEMORY && extendedAddr <= 0xFFFF_0000
    }

    ghost function Loaded(): (m: Image)
      requires Valid()
      reads this, firmwareImage, firmwareMask
      ensures ValidImage(m)
    {
      Image(firmwareImage[..], firmwareMask[..], extendedAddr, byteCount, endRecordSeen)
    }

    constructor ()
      ensures Valid() && fresh(firmwareImage) && fresh(firmwareMask)
      ensures byteCount == 0 && extendedAddr == 0 && !endRecordSeen
    {
      firmwareImage := new Octet[MAX_MEMORY];
      firmwareMask := new bool[MAX_MEMORY];
      endRecordSeen, byteCount, extendedAddr := false, 0, 0;
    }

    /** Stores the bytes of a data record, whatever its checksum; those for addresses outside the arrays are lost. */
    method StoreBytes(address: nat, data: seq<Octet>) returns (sum: nat)
      requires Valid() && |data| < 256
      modifies firmwareImage, firmwareMask
      ensures firmwareImage[..] == PutBytes(old(firmwareImage[..]), address, data)
      ensures firmwareMask[..] == PutMask(old(firmwareMask[..]), address, |data|)
      ensures sum == Sum(data)
    {
      hide Distance, Sum;
      sum := 0;
      assert data[0..] == data;
      for num := 0 to |data|
        invariant forall k :: 0 <= k < MAX_MEMORY ==>
          firmwareImage[k] == if Distance(address, k) < num then data[Distance(address, k)] else old(firmwareImage[k])
        invariant forall k :: 0 <= k < MAX_MEMORY ==>
          firmwareMask[k] == (Distance(address, k) < num || old(firmwareMask[k]))
        invariant sum + Sum(data[num..]) == Sum(data)
      {
        NextSum(data, num);
        var at := (address + num) % WRAP;
        forall k | 0 <= k < MAX_MEMORY ensures Distance(address, k) == num <==> k == at {
          DistanceIs(address, k, num);
        }
        if at < MAX_MEMORY {
          firmwareImage[at] := data[num];
          firmwareMask[at] := true;
        }
        sum := sum + data[num];
      }
      NoSum(data);
    }

    method ParseHexLine(r: Record) returns (ok: bool)
      requires Valid() && ValidRecord(r)
      modifies this`endRecordSeen, this`byteCount, this`extendedAddr, firmwareImage, firmwareMask
      ensures Valid() && (Loaded(), ok) == Parse(old(Loaded()), r)
      // Accepted are the lines inside the image memory, if they are not data lines with a wrong checksum.
      ensures ok <==> InImage(r.addr + old(extendedAddr), r.len) && (r.code == 0 ==> IsStandard(r))
    {
      hide PutBytes, PutMask, Sum, IsStandard;
      AcceptsIff(Loaded(), r);
      if (r.addr + extendedAddr + r.len) % WRAP >= MAX_MEMORY {
        return false;
      }
      var sum: nat := r.len as int + r.addr / 256 + r.addr % 256 + r.code;
      if r.code != 0 {
        if r.code == 1 {
          endRecordSeen := true;
          return true;
        }
        if (r.code == 2 || r.code == 4) && r.len == 2 {
          SumOfTwo(r.data);
          sum := sum + r.data[0] as int + r.data[1] as int;
          if (sum + r.checksum) % 256 != 0 {
            return true;
          }
          extendedAddr := Word(r.data[0], r.data[1]) * if r.code == 2 then 0x10 else 0x1_0000;
        }
        return true;
      }
      byteCount := byteCount + r.len;
      var data := StoreBytes(r.addr + extendedAddr, r.data);
      ok := (sum + data + r.checksum) % 256 == 0;
    }

    /** Reads a file of decoded lines; the number of data bytes, or a negative error. */
    method ReadIntelHex(records: seq<Record>) returns (count: int)
      requires Valid() && forall r :: r in records ==> ValidRecord(r)
      modifies this`endRecordSeen, this`byteCount, this`extendedAddr, firmwareImage, firmwareMask
      ensures Valid()
      ensures var (m, ok) := ParseAll(EmptyImage(), records);
              Loaded() == m && count == if ok then m.count else -2
      ensures count >= 0 <==> IsGoodFile(records, 0)
    {
      FileAcceptedIff(EmptyImage(), records);
      byteCount, endRecordSeen, extendedAddr := 0, false, 0;
      forall i | 0 <= i < MAX_MEMORY {
        firmwareImage[i] := BLANK;
      }
      forall i | 0 <= i < MAX_MEMORY {
        firmwareMask[i] := false;
      }
      assert Loaded() == EmptyImage();
      hide Parse, IsGoodFile;
      var i := 0;
      assert records[0..] == records;
      while i < |records| && !endRecordSeen
        invariant 0 <= i <= |records| && Valid()
        invariant forall r :: r in records[i..] ==> ValidRecord(r)
        invariant ParseAll(EmptyImage(), records) ==
                  if endRecordSeen then (Loaded(), true) else ParseAll(Loaded(), records[i..])
      {
        assert records[i] in records && records[i..][1..] == records[i + 1..];
        var ok := ParseHexLine(records[i]);
        if !ok {
          return -2;
        }
        i := i + 1;
      }
      count := byteCount;
    }

    method BytesWithinRange(first: nat, last: nat) returns (any: bool)
      requires Valid() && first <= last
      ensures any == AnyWithin(Loaded(), first, last)
    {
      if first >= MAX_MEMORY || last >= MAX_MEMORY {
        return false;
      }
      for i := first to last + 1
        invariant forall k :: first <= k < i ==> !firmwareMask[k]
      {
        if firmwareMask[i] {
          assert Loaded().mask[i];
          return true;
        }
      }
      any := false;
    }

    method GetData(address: nat, n: nat) returns (bytes: seq<Octet>)
      requires Valid()
      ensures bytes == BlockData(Loaded(), address, n)
    {
      bytes := [];
      for i := 0 to n
        invariant |bytes| == i
        invariant forall k :: 0 <= k < i ==> bytes[k] == BlockData(Loaded(), address, n)[k]
      {
        var byte := if address + n < MAX_MEMORY && firmwareMask[address + i] then firmwareImage[address + i] else BLANK;
        bytes := bytes + [byte];
      }
    }

    /** Sends all used blocks to the device, and then the reboot report if asked to. */
    method Program(device: BootLoader, codeSize: nat, block: nat, reboot: bool)
      requires Valid() && block > 0 && ValidDevice(device.Device()) && PageSize(device.flash) == block
      modifies device
      ensures device.Device() == if reboot then Rebooted(old(device.Device()), Loaded(), codeSize, block)
                                 else AfterBlocks(old(device.Device()), Loaded(), codeSize, block)
    {
      hide SetReport, BlockData, AnyWithin, Report, SetReports, Reports, Sized, ValidFlash, AddressWord;
      ghost var m := Loaded();
      ReportsFit(m, codeSize, block, 0);
      var a := 0;
      while a < codeSize
        invariant ValidDevice(device.Device()) && PageSize(device.flash) == block
        invariant Sized(Reports(m, codeSize, block, a), 2 + block)
        invariant SetReports(device.Device(), Reports(m, codeSize, block, a)) ==
                  AfterBlocks(old(device.Device()), m, codeSize, block)
      {
        SendsNext(device.Device(), m, codeSize, block, a);
        var used := true;
        if a > 0 {
          used := BytesWithinRange(a, a + block - 1);
        }
        if used {
          var data := GetData(a, block);
          device.Receive(Report(AddressWord(a, codeSize), data));
        }
        a := a + block;
      }
      NothingLeft(device.Device(), m, codeSize, block, a);
      if reboot {
        device.Receive(RebootReport(block));
      }
    }

    /** Reads a file and, if it is accepted, programs the device with it and starts the application. */
    method Load(records: seq<Record>, device: BootLoader, codeSize: nat, block: nat) returns (count: int)
      requires Valid() && forall r :: r in records ==> ValidRecord(r)
      requires IsPart(device.Device(), codeSize, block) && codeSize < MAX_MEMORY
      modifies this`endRecordSeen, this`byteCount, this`extendedAddr, firmwareImage, firmwareMask, device
      ensures |device.flash.mem| == codeSize == |old(device.flash.mem)|
      ensures count >= 0 <==> IsGoodFile(records, 0)
      ensures count < 0 ==> device.Device() == old(device.Device())
      ensures count >= 0 ==> count == Length(Runs(records, 0)) && !device.runBootloader
      ensures count >= 0 ==> forall x: nat :: x < codeSize ==>
        device.flash.mem[x] == FileByte(Runs(records, 0), block, x, old(device.flash.mem[x]))
    {
      hide ParseAll, Runs, FileByte, AfterBlocks, Rebooted, ValidDevice, ByteAt, IsGoodFile;
      count := ReadIntelHex(records);
      PartFacts(device.Device(), codeSize, block);
      if count < 0 {
        return;
      }
      ImageMeansFile(EmptyImage(), records, 0);
      ghost var before := device.Device();
      Program(device, codeSize, block, true);
      SessionPrograms(before, Loaded(), codeSize, block, 0);
      forall x: nat | x < codeSize
        ensures device.flash.mem[x] == FileByte(Runs(records, 0), block, x, old(device.flash.mem[x]))
      {
        SessionPrograms(before, Loaded(), codeSize, block, x);
        FileArrives(before, records, codeSize, block, x);
      }
    }
  }

  lemma {:induction false} DistanceIs(a: nat, k: nat, n: nat)
    requires k < MAX_MEMORY && n < 256
    ensures Distance(a, k) == n <==> k == (a + n) % WRAP
  {
    var q := (a + n) / WRAP;
    if k == (a + n) % WRAP {
      assert k - a == WRAP * -q + n;
      DivModUnique(k - a, WRAP, -q, n);
    }
    if Distance(a, k) == n {
      var t := (k - a) / WRAP;
      assert a + n == WRAP * -t + k;
      DivModUnique(a + n, WRAP, -t, k);
    }
  }

  lemma {:induction false} NextSum(data: seq<Octet>, n: nat)
    requires n < |data|
    ensures Sum(data[n..]) == data[n] + Sum(data[n + 1..])
  {
    assert data[n..][1..] == data[n + 1..];
  }

  lemma {:induction false} NoSum(data: seq<Octet>)
    ensures Sum(data[|data|..]) == 0
  {
  }

  lemma {:induction false} SumOfTwo(data: seq<Octet>)
    requires |data| == 2
    ensures Sum(data) == data[0] as int + data[1] as int
  {
    var last := data[1..];
    assert last[1..] == [] && Sum(last) == last[0] as int + Sum(last[1..]);
    assert Sum(data) == data[0] as int + Sum(last);
  }
}
