/** The lines of a HEX file as text, and which of them the HID host tool accepts. */
module HidText {
  import opened Arithmetic
  import opened Flash
  import opened Hid
  import P = HexParser

  /** The fields of a line in front of its checksum. */
  function Fields(r: Record): seq<Octet>
    requires r.addr < 0x1_0000
  {
    [r.len, r.addr / 256, r.addr % 256, r.code] + r.data
  }

  /** The text of a line, with the checksum it happens to have. */
  function Line(r: Record): string
    requires r.addr < 0x1_0000
  {
    ":" + P.HexText(Fields(r) + [r.checksum])
  }

  /** The line is the one that the format prescribes for its address, type and data. */
  ghost predicate IsStandard(r: Record)
    requires ValidRecord(r)
  {
    Line(r) == P.Record(r.addr, r.code, r.data)
  }

  lemma {:induction false} LastByte(fields: seq<Octet>, ck: Octet)
    ensures P.HexText(fields + [ck]) == P.HexText(fields) + P.HexByte(ck)
  {
    hide P.HexByte, P.HexText;
    P.HexTextAppend(fields, [ck]);
    P.HexTextCons(ck, []);
    P.HexTextNone();
    assert [ck] == [ck] + [] && P.HexByte(ck) + [] == P.HexByte(ck);
  }

  lemma {:induction false} SameByte(a: Octet, b: Octet)
    requires P.HexByte(a) == P.HexByte(b)
    ensures a == b
  {
    assert P.HexDigit(a / 16) == P.HexByte(a)[0] == P.HexByte(b)[0] == P.HexDigit(b / 16);
    assert P.HexDigit(a % 16) == P.HexByte(a)[1] == P.HexByte(b)[1] == P.HexDigit(b % 16);
    assert a == a / 16 * 16 + a % 16 && b == b / 16 * 16 + b % 16;
  }

  lemma {:induction false} FieldSum(r: Record)
    requires ValidRecord(r)
    ensures Sum(Fields(r)) == r.len + r.addr / 256 + r.addr % 256 + r.code + Sum(r.data)
  {
    hide Sum;
    var head := [r.len, r.addr / 256, r.addr % 256, r.code];
    P.SumAppend(head, r.data);
    P.SumHeader(r.len, r.addr / 256, r.addr % 256, r.code);
  }

  lemma {:induction false} CompletesSum(sum: nat, ck: Octet)
    ensures ck == (256 - sum % 256) % 256 <==> (sum + ck) % 256 == 0
  {
    P.AddMod(0, sum, ck);
    P.ChecksumTest(sum % 256, ck);
  }

  /** The checksum test accepts exactly the standard lines. */
  lemma {:induction false} SumsToZeroIff(r: Record)
    requires ValidRecord(r)
    ensures SumsToZero(r) <==> IsStandard(r)
  {
    hide Sum, P.HexText, P.HexByte;
    var fields := Fields(r);
    var ck: Octet := (256 - Sum(fields) % 256) % 256;
    FieldSum(r);
    CompletesSum(Sum(fields), r.checksum);
    LastByte(fields, r.checksum);
    LastByte(fields, ck);
    if IsStandard(r) {
      assert Line(r)[1..] == P.HexText(fields) + P.HexByte(r.checksum);
      assert Line(r)[1..] == P.HexText(fields) + P.HexByte(ck);
      SameTail(P.HexText(fields), P.HexByte(r.checksum), P.HexByte(ck));
      SameByte(r.checksum, ck);
    }
  }

  lemma {:induction false} SameTail(a: string, x: string, y: string)
    requires a + x == a + y
    ensures x == y
  {
    assert (a + x)[|a|..] == x && (a + y)[|a|..] == y;
  }

  /** A data line inside the image is accepted if and only if it ends in the checksum that the format prescribes. */
  lemma {:induction false} AcceptedIff(m: Image, addr: nat, bytes: seq<Octet>, ck: Octet)
    requires ValidImage(m) && addr < 0x1_0000 && |bytes| < 256 && InImage(addr + m.extended, |bytes|)
    ensures var text := P.Record(addr, 0, bytes);
            |text| >= 2 && (Parse(m, Record(|bytes|, addr, 0, bytes, ck)).1 <==> text[|text| - 2..] == P.HexByte(ck))
  {
    hide PutBytes, PutMask, P.HexText, P.HexByte, Sum, SumsToZero, IsStandard;
    var r := Record(|bytes|, addr, 0, bytes, ck);
    SumsToZeroIff(r);
    EndsInChecksum(r);
  }

  /** Accepted are the lines inside the image memory, if they are not data lines with a wrong checksum. */
  lemma {:induction false} AcceptsIff(m: Image, r: Record)
    requires ValidImage(m) && ValidRecord(r)
    ensures Parse(m, r).1 <==> InImage(r.addr + m.extended, r.len) && (r.code == 0 ==> IsStandard(r))
  {
    hide PutBytes, PutMask, InImage, SumsToZero, IsStandard;
    SumsToZeroIff(r);
  }

  lemma {:induction false} EndsInChecksum(r: Record)
    requires ValidRecord(r)
    ensures var text := P.Record(r.addr, r.code, r.data);
            |text| >= 2 && (IsStandard(r) <==> text[|text| - 2..] == P.HexByte(r.checksum))
  {
    hide Sum, P.HexText, P.HexByte;
    var fields, text := Fields(r), P.Record(r.addr, r.code, r.data);
    var ck: Octet := (256 - Sum(fields) % 256) % 256;
    LastByte(fields, r.checksum);
    LastByte(fields, ck);
    assert text == ":" + (P.HexText(fields) + P.HexByte(ck));
    assert text[|text| - 2..] == P.HexByte(ck);
    assert Line(r) == ":" + (P.HexText(fields) + P.HexByte(r.checksum));
    if IsStandard(r) {
      assert Line(r)[|text| - 2..] == P.HexByte(r.checksum);
    }
  }

  // ---------------------------------------------------------------------------
  // Whole files

  /** The base address behind a line: a standard extended address line moves it. */
  ghost function BaseBehind(r: Record, base: nat): nat
    requires ValidRecord(r)
  {
    if (r.code == 2 || r.code == 4) && r.len == 2 && IsStandard(r) then
      Word(r.data[0], r.data[1]) * if r.code == 2 then 0x10 else 0x1_0000
    else base
  }

  /** Every line up to the end record is inside the image memory, and every data line is standard. */
  ghost predicate IsGoodFile(records: seq<Record>, base: nat)
    requires forall r :: r in records ==> ValidRecord(r)
    decreases |records|
  {
    records == [] ||
    (assert records[0] in records;
     && InImage(records[0].addr + base, records[0].len)
     && (records[0].code == 0 ==> IsStandard(records[0]))
     && (records[0].code == 1 || IsGoodFile(records[1..], BaseBehind(records[0], base))))
  }

  lemma {:induction false} BaseBehindIs(r: Record, base: nat)
    requires ValidRecord(r)
    ensures BaseBehind(r, base) == NextBase(r, base)
  {
    hide IsStandard, SumsToZero;
    SumsToZeroIff(r);
  }

  /** The tool accepts exactly the good files. */
  lemma {:induction false} FileAcceptedIff(m: Image, records: seq<Record>)
    requires ValidImage(m) && !m.ended && forall r :: r in records ==> ValidRecord(r)
    ensures ParseAll(m, records).1 <==> IsGoodFile(records, m.extended)
    decreases |records|
  {
    hide IsStandard, SumsToZero, PutBytes, PutMask, BaseBehind, InImage;
    if records != [] {
      var r := records[0];
      assert r in records;
      SumsToZeroIff(r);
      BaseBehindIs(r, m.extended);
      var (m1, ok) := Parse(m, r);
      if ok && !m1.ended {
        ParsedAt(m, r, 0);
        FileAcceptedIff(m1, records[1..]);
      }
    }
  }

  /** Any file of standard data lines below the end of the image memory, and its end record, is accepted. */
  lemma {:induction false} PrintedFileAccepted(records: seq<Record>, end: Record)
    requires forall r :: r in records ==> ValidRecord(r) && r.code == 0 && IsStandard(r) && r.addr + r.len < MAX_MEMORY
    requires ValidRecord(end) && end.code == 1 && end.addr + end.len < MAX_MEMORY
    ensures forall r :: r in records + [end] ==> ValidRecord(r)
    ensures IsGoodFile(records + [end], 0)
    decreases |records|
  {
    hide IsStandard;
    var all := records + [end];
    if records != [] {
      assert records[0] in records && all[1..] == records[1..] + [end];
      PrintedFileAccepted(records[1..], end);
    }
  }
}
