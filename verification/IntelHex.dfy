/**
 The two Intel HEX writers, a decoder after sections 2, 5 and 8 of Intel's Hexadecimal Object
 File Format Specification (Rev. A, 1988), and exactly when the decoder gets the data back.
 */
module IntelHex {
  import opened Wrappers
  import opened Patches
  import opened FixedWidth

  const HEX: string := "0123456789ABCDEF"
  const END_LINE: string := ":00000001FF"

  /** Hexadecimal digits without leading zeros. */
  function Hex(n: nat): (s: string)
    ensures |s| > 0 && (n >= 16 ==> |s| > 1)
  {
    if n < 16 then [HEX[n]] else Hex(n / 16) + [HEX[n % 16]]
  }

  /** At least two digits; a number above 255 takes more. */
  function Padded(n: nat): (s: string)
    ensures |s| >= 2
  {
    if n < 16 then "0" + Hex(n) else Hex(n)
  }

  function PaddedAll(record: seq<nat>): (s: string)
    ensures |s| >= 2 * |record|
  {
    if record == [] then "" else Padded(record[0]) + PaddedAll(record[1..])
  }

  function Sum(record: seq<nat>): nat {
    if record == [] then 0 else record[0] + Sum(record[1..])
  }

  /** The two's complement of the sum, in eight bits. */
  function Checksum(record: seq<nat>): byte {
    var sum: int := Sum(record);
    -sum % 256
  }

  function Min(a: nat, b: nat): nat {
    if a < b then a else b
  }

  /** Count, address, type 00 and the data; the address keeps its low 16 bits. */
  function DataRecord(addr: int, data: seq<byte>): seq<nat> {
    [|data|, (addr / 256) % 256, addr % 256, 0] + data
  }

  function RecordLine(record: seq<nat>): string {
    ":" + PaddedAll(record) + Padded(Checksum(record))
  }

  /** The data lines from `offset` on. */
  function DataLines(data: seq<byte>, base: int, width: nat, offset: nat): seq<string>
    requires width > 0 && offset <= |data|
    decreases |data| - offset
  {
    if offset == |data| then []
    else
      var count := Min(width, |data| - offset);
      [RecordLine(DataRecord(base + offset, data[offset..offset + count]))] +
          DataLines(data, base, width, offset + count)
  }

  /** The lines with a separator between each two. */
  function Join(lines: seq<string>): string {
    if |lines| == 0 then ""
    else if |lines| == 1 then lines[0]
    else lines[0] + "\n" + Join(lines[1..])
  }

  /** The whole text: data lines, end line, and a line break after each. */
  function Text(data: seq<byte>, base: int, width: nat): string
    requires width > 0
  {
    Join(DataLines(data, base, width, 0) + [END_LINE]) + "\n"
  }

  /** The first address of the last record. */
  function LastStart(data: seq<byte>, base: int, width: nat): int
    requires width > 0 && data != []
  {
    base + RoundDown(|data| - 1, width)
  }

  lemma NextDataLine(data: seq<byte>, base: int, width: nat, offset: nat)
    requires width > 0 && offset < |data|
    ensures var count := Min(width, |data| - offset);
            DataLines(data, base, width, offset) ==
            [RecordLine(DataRecord(base + offset, data[offset..offset + count]))] +
                DataLines(data, base, width, offset + count)
  {
    hide RecordLine, DataRecord;
  }

  lemma NoDataLines(data: seq<byte>, base: int, width: nat)
    requires width > 0
    ensures DataLines(data, base, width, |data|) == []
  {
  }

  lemma NextStart(n: nat, width: nat)
    requires width > 0 && n > 0
    ensures RoundDown(n - 1, width) == if n <= width then 0 else width + RoundDown(n - width - 1, width)
  {
  }

  /** The writer that checks addresses: None stands for the error it raises. */
  method BinToHex(data: seq<byte>, base: int, width: nat) returns (r: Option<string>)
    requires width > 0
    ensures r.None? <==> data != [] && LastStart(data, base, width) > 0xFFFF
    ensures r.Some? ==> r.value == Text(data, base, width)
  {
    hide RecordLine, DataRecord, Join, DataLines, RoundDown;
    var lines: seq<string> := [];
    var offset := 0;
    while offset < |data|
      invariant offset <= |data|
      invariant lines + DataLines(data, base, width, offset) == DataLines(data, base, width, 0)
      invariant offset < |data| ==>
                  base + offset + RoundDown(|data| - offset - 1, width) == LastStart(data, base, width)
      invariant offset == |data| > 0 ==> LastStart(data, base, width) <= 0xFFFF
    {
      var count := Min(width, |data| - offset);
      var addr := base + offset;
      NextStart(|data| - offset, width);
      if addr > 0xFFFF {
        return None;
      }
      NextDataLine(data, base, width, offset);
      lines := lines + [RecordLine(DataRecord(addr, data[offset..offset + count]))];
      offset := offset + count;
    }
    NoDataLines(data, base, width);
    assert lines == DataLines(data, base, width, 0);
    lines := lines + [END_LINE];
    return Some(Join(lines) + "\n");
  }

  /** The writer of the converter, which checks nothing. */
  method BinToIntelHex(data: seq<byte>, base: int, width: nat) returns (text: string)
    requires width > 0
    ensures text == Text(data, base, width)
  {
    hide RecordLine, DataRecord, Join, DataLines;
    var lines: seq<string> := [];
    var offset := 0;
    while offset < |data|
      invariant offset <= |data|
      invariant lines + DataLines(data, base, width, offset) == DataLines(data, base, width, 0)
    {
      var count := Min(width, |data| - offset);
      NextDataLine(data, base, width, offset);
      lines := lines + [RecordLine(DataRecord(base + offset, data[offset..offset + count]))];
      offset := offset + count;
    }
    NoDataLines(data, base, width);
    assert lines == DataLines(data, base, width, 0);
    lines := lines + [END_LINE];
    text := Join(lines) + "\n";
  }

  // The decoder.

  function Digit(c: char): Option<nat> {
    if '0' <= c <= '9' then Some(c as int - '0' as int)
    else if 'A' <= c <= 'F' then Some(c as int - 'A' as int + 10)
    else None
  }

  /** Pairs of digits as bytes. */
  function FromHex(s: string): (r: Option<seq<byte>>)
    ensures r.Some? ==> |s| == 2 * |r.value|
  {
    if s == "" then Some([])
    else if |s| == 1 then None
    else
      var hi, lo, rest := Digit(s[0]), Digit(s[1]), FromHex(s[2..]);
      if hi.Some? && lo.Some? && hi.value < 16 && lo.value < 16 && rest.Some?
      then Some([16 * hi.value + lo.value] + rest.value)
      else None
  }

  datatype Record = Record(offset: nat, kind: nat, data: seq<byte>)

  /** A mark, the length, the load offset, the type, the data and a checksum that makes the sum zero. */
  function DecodeLine(line: string): (r: Option<Record>)
    ensures r.Some? ==> |line| <= 521
  {
    if line == "" || line[0] != ':' then None
    else
      var b := FromHex(line[1..]);
      if b.None? || |b.value| < 5 || b.value[0] != |b.value| - 5 || Sum(b.value) % 256 != 0 then None
      else
        var hi: nat, lo: nat := b.value[1], b.value[2];
        Some(Record(256 * hi + lo, b.value[3], b.value[4..|b.value| - 1]))
  }

  type Memory = map<int, byte>

  function Distance(from: int, a: int): int {
    a - from
  }

  /** Where the bytes of a data record go; offsets wrap around in 64 KiB. */
  function Stored(offset: int, data: seq<byte>): Memory {
    map a | 0 <= a < 0x1_0000 && Distance(offset, a) % 0x1_0000 < |data| :: data[Distance(offset, a) % 0x1_0000]
  }

  /** Data records up to one end record, which is the last line. */
  function DecodeLines(lines: seq<string>): Option<Memory> {
    if lines == [] then None
    else
      var first := DecodeLine(lines[0]);
      if first.None? then None
      else if first.value.kind == 1 then
        if first.value == Record(0, 1, []) && |lines| == 1 then Some(map[]) else None
      else if first.value.kind != 0 then None
      else
        var rest := DecodeLines(lines[1..]);
        if rest.None? then None else Some(Stored(first.value.offset, first.value.data) + rest.value)
  }

  /** The part before the first line break. */
  function FirstLine(s: string): (line: string)
    ensures |line| <= |s| && '\n' !in line
  {
    if s == "" || s[0] == '\n' then "" else [s[0]] + FirstLine(s[1..])
  }

  function Lines(s: string): seq<string> {
    if s == "" then []
    else
      var line := FirstLine(s);
      if |line| == |s| then [line] else [line] + Lines(s[|line| + 1..])
  }

  function Decode(text: string): Option<Memory> {
    DecodeLines(Lines(text))
  }

  /** The data at its base. */
  function Placed(data: seq<byte>, base: int): Memory {
    map a | base <= a < base + |data| && Distance(base, a) < |data| :: data[Distance(base, a)]
  }

  // Text and lines.

  lemma {:induction false} FirstLineOf(line: string, rest: string)
    requires '\n' !in line
    ensures FirstLine(line + "\n" + rest) == line
  {
    var s := line + "\n" + rest;
    if line != "" {
      assert s[1..] == line[1..] + "\n" + rest;
      FirstLineOf(line[1..], rest);
      assert line == [line[0]] + line[1..];
    }
  }

  /** Splitting undoes joining when no line holds a line break. */
  lemma {:induction false} LinesOfJoin(lines: seq<string>)
    requires lines != [] && forall k :: 0 <= k < |lines| ==> '\n' !in lines[k]
    ensures Lines(Join(lines) + "\n") == lines
  {
    var line, text := lines[0], Join(lines) + "\n";
    if |lines| == 1 {
      FirstLineOf(line, "");
      assert text == line + "\n" + "";
      assert text[|line| + 1..] == "";
      assert Lines(text[|line| + 1..]) == [];
    } else {
      var rest := Join(lines[1..]) + "\n";
      assert text == line + "\n" + rest;
      FirstLineOf(line, rest);
      assert text[|line| + 1..] == rest;
      LinesOfJoin(lines[1..]);
    }
  }

  lemma {:induction false} HexHasNoBreak(n: nat)
    ensures '\n' !in Hex(n)
  {
    if n >= 16 {
      HexHasNoBreak(n / 16);
    }
  }

  lemma {:induction false} PaddedAllHasNoBreak(record: seq<nat>)
    ensures '\n' !in PaddedAll(record)
  {
    if record != [] {
      HexHasNoBreak(record[0]);
      PaddedAllHasNoBreak(record[1..]);
    }
  }

  lemma {:induction false} DataLinesHaveNoBreak(data: seq<byte>, base: int, width: nat, offset: nat)
    requires width > 0 && offset <= |data|
    ensures forall k :: 0 <= k < |DataLines(data, base, width, offset)| ==>
              '\n' !in DataLines(data, base, width, offset)[k]
    decreases |data| - offset
  {
    hide PaddedAll, Hex;
    if offset < |data| {
      var count := Min(width, |data| - offset);
      var record := DataRecord(base + offset, data[offset..offset + count]);
      PaddedAllHasNoBreak(record);
      HexHasNoBreak(Checksum(record));
      DataLinesHaveNoBreak(data, base, width, offset + count);
    }
  }

  lemma TextLines(data: seq<byte>, base: int, width: nat)
    requires width > 0
    ensures Lines(Text(data, base, width)) == DataLines(data, base, width, 0) + [END_LINE]
  {
    DataLinesHaveNoBreak(data, base, width, 0);
    LinesOfJoin(DataLines(data, base, width, 0) + [END_LINE]);
  }

  // Records.

  lemma PaddedByte(b: byte)
    ensures |Padded(b)| == 2 && Digit(Padded(b)[0]) == Some(b / 16) && Digit(Padded(b)[1]) == Some(b % 16)
  {
    DigitOf(b / 16);
    DigitOf(b % 16);
    assert b >= 16 ==> Hex(b / 16) == [HEX[b / 16]];
  }

  lemma DigitOf(n: nat)
    requires n < 16
    ensures Digit(HEX[n]) == Some(n)
  {
    assert HEX[0] == '0' && HEX[1] == '1' && HEX[2] == '2' && HEX[3] == '3' && HEX[4] == '4' && HEX[5] == '5';
    assert HEX[6] == '6' && HEX[7] == '7' && HEX[8] == '8' && HEX[9] == '9' && HEX[10] == 'A' && HEX[11] == 'B';
  }

  /** Reading undoes writing for bytes. */
  lemma {:induction false} FromHexOf(bytes: seq<byte>)
    ensures FromHex(PaddedAll(bytes)) == Some(bytes)
  {
    if bytes != [] {
      PaddedByte(bytes[0]);
      FromHexOf(bytes[1..]);
      var s := PaddedAll(bytes);
      assert s[2..] == PaddedAll(bytes[1..]);
      assert s[0] == Padded(bytes[0])[0] && s[1] == Padded(bytes[0])[1];
      assert [bytes[0]] + bytes[1..] == bytes;
    }
  }

  lemma {:induction false} PaddedAllSnoc(record: seq<nat>, last: nat)
    ensures PaddedAll(record + [last]) == PaddedAll(record) + Padded(last)
    ensures Sum(record + [last]) == Sum(record) + last
  {
    if record == [] {
      assert PaddedAll([]) == "" && Sum([]) == 0;
      assert ([last])[1..] == [];
    } else {
      assert (record + [last])[1..] == record[1..] + [last];
      PaddedAllSnoc(record[1..], last);
    }
  }

  /** A record of bytes comes back from its line. */
  lemma RecordComesBack(addr: nat, data: seq<byte>)
    requires |data| < 256 && addr < 0x1_0000
    ensures DecodeLine(RecordLine(DataRecord(addr, data))) == Some(Record(addr, 0, data))
  {
    hide PaddedAll, Padded, FromHex;
    var record: seq<byte> := [|data|, (addr / 256) % 256, addr % 256, 0] + data;
    var line := RecordLine(record);
    var bytes := record + [Checksum(record)];
    PaddedAllSnoc(record, Checksum(record));
    FromHexOf(bytes);
    assert line[1..] == PaddedAll(bytes);
    assert bytes[4..|bytes| - 1] == data;
    var sum: int := Sum(record);
    AddMultiple(0, -(-sum / 256), 256);
  }

  /** A record with more than 255 data bytes is not readable. */
  lemma LongRecordIsUnreadable(addr: int, data: seq<byte>)
    requires |data| > 255
    ensures DecodeLine(RecordLine(DataRecord(addr, data))).None?
  {
    hide PaddedAll, Padded, FromHex;
  }

  lemma EndComesBack()
    ensures DecodeLine(END_LINE) == Some(Record(0, 1, []))
  {
    hide Sum, FromHex;
    FromHexNext("FF", "", [0xFF], []);
    FromHexNext("01FF", "FF", [1, 0xFF], [0xFF]);
    FromHexNext("0001FF", "01FF", [0, 1, 0xFF], [1, 0xFF]);
    FromHexNext("000001FF", "0001FF", [0, 0, 1, 0xFF], [0, 1, 0xFF]);
    FromHexNext(END_LINE[1..], "000001FF", [0, 0, 0, 1, 0xFF], [0, 0, 1, 0xFF]);
    assert FromHex(END_LINE[1..]) == Some([0, 0, 0, 1, 0xFF]);
    var bytes: seq<byte> := [0, 0, 0, 1, 0xFF];
    assert bytes[4..|bytes| - 1] == [];
    SumOfEnd();
  }

  lemma FromHexNext(s: string, rest: string, bytes: seq<byte>, others: seq<byte>)
    requires (rest == "" && others == []) || FromHex(rest) == Some(others)
    requires |s| >= 2 && s[2..] == rest && bytes != [] && bytes[1..] == others
    requires Digit(s[0]).Some? && Digit(s[0]).value == bytes[0] / 16
    requires Digit(s[1]).Some? && Digit(s[1]).value == bytes[0] % 16
    ensures FromHex(s) == Some(bytes)
  {
    assert bytes == [bytes[0]] + others;
  }

  lemma SumOfEnd()
    ensures Sum([0, 0, 0, 1, 0xFF]) == 256
  {
  }

  // Round trip.

  lemma {:induction false} DecodesFrom(data: seq<byte>, base: nat, width: nat, offset: nat)
    requires 0 < width && Min(width, |data|) <= 255 && base + |data| <= 0x1_0000 && offset <= |data|
    ensures DecodeLines(DataLines(data, base, width, offset) + [END_LINE]) ==
              Some(Placed(data[offset..], base + offset))
    decreases |data| - offset
  {
    hide RecordLine, DecodeLine, DecodeLines, DataLines, DataRecord, Stored, Placed;
    var lines := DataLines(data, base, width, offset) + [END_LINE];
    if offset == |data| {
      NoDataLines(data, base, width);
      assert lines == [END_LINE];
      OnlyEnd(data, base);
    } else {
      var count := Min(width, |data| - offset);
      var chunk := data[offset..offset + count];
      RecordComesBack(base + offset, chunk);
      DecodesFrom(data, base, width, offset + count);
      NextDataLine(data, base, width, offset);
      assert lines[1..] == DataLines(data, base, width, offset + count) + [END_LINE];
      DataFirst(lines, base + offset, chunk);
      StoredThenPlaced(data, base, offset, count);
    }
  }

  lemma OnlyEnd(data: seq<byte>, base: nat)
    ensures DecodeLines([END_LINE]) == Some(Placed(data[|data|..], base + |data|))
  {
    hide DecodeLine;
    EndComesBack();
  }

  lemma DataFirst(lines: seq<string>, offset: nat, data: seq<byte>)
    requires lines != [] && DecodeLine(lines[0]) == Some(Record(offset, 0, data)) && DecodeLines(lines[1..]).Some?
    ensures DecodeLines(lines) == Some(Stored(offset, data) + DecodeLines(lines[1..]).value)
  {
    hide DecodeLine, Stored;
  }

  lemma StoredIsPlaced(offset: nat, data: seq<byte>)
    requires offset + |data| <= 0x1_0000
    ensures Stored(offset, data) == Placed(data, offset)
  {
    forall a | 0 <= a < 0x1_0000
      ensures Distance(offset, a) % 0x1_0000 ==
                if offset <= a then Distance(offset, a) else Distance(offset, a) + 0x1_0000
    {
    }
  }

  lemma StoredThenPlaced(data: seq<byte>, base: nat, offset: nat, count: nat)
    requires offset + count <= |data| && base + |data| <= 0x1_0000
    ensures Stored(base + offset, data[offset..offset + count]) +
              Placed(data[offset + count..], base + offset + count) ==
            Placed(data[offset..], base + offset)
  {
    hide Stored;
    StoredIsPlaced(base + offset, data[offset..offset + count]);
    PlacedAt(data[offset..offset + count], base + offset);
    PlacedAt(data[offset + count..], base + offset + count);
    PlacedAt(data[offset..], base + offset);
    hide Placed;
  }

  lemma PlacedAt(data: seq<byte>, base: int)
    ensures forall a :: a in Placed(data, base) <==> base <= a < base + |data|
    ensures forall a :: base <= a < base + |data| ==> a in Placed(data, base) && Placed(data, base)[a] == data[a - base]
  {
    assert forall a :: Distance(base, a) == a - base;
  }

  lemma {:induction false} DecodedAddresses(lines: seq<string>)
    requires DecodeLines(lines).Some?
    ensures forall a :: a in DecodeLines(lines).value ==> 0 <= a < 0x1_0000
  {
    hide DecodeLine;
    if DecodeLine(lines[0]).value.kind == 0 {
      DecodedAddresses(lines[1..]);
    }
  }

  lemma NotAllPlaced(data: seq<byte>, base: int, m: Memory)
    requires data != [] && (base < 0 || base + |data| > 0x1_0000) && forall a :: a in m ==> 0 <= a < 0x1_0000
    ensures m != Placed(data, base)
  {
    var a := if base < 0 then base else base + |data| - 1;
    assert Distance(base, a) < |data|;
    assert a in Placed(data, base) && a !in m;
  }

  /**
   The decoder gets exactly the data back at its base if and only if the data is empty, or it
   lies inside the 64 KiB and no record is longer than 255 bytes; the checking writer does not
   stop in that case.
   */
  lemma RoundTrip(data: seq<byte>, base: int, width: nat)
    requires width > 0
    ensures Decode(Text(data, base, width)) == Some(Placed(data, base)) <==>
              data == [] || (0 <= base && base + |data| <= 0x1_0000 && Min(width, |data|) <= 255)
    ensures data != [] && base + |data| <= 0x1_0000 ==> LastStart(data, base, width) <= 0xFFFF
  {
    hide RecordLine, DecodeLine;
    TextLines(data, base, width);
    var lines := DataLines(data, base, width, 0) + [END_LINE];
    assert data[0..] == data;
    if data == [] {
      DecodesFrom(data, 0, width, 0);
      assert Placed(data, 0) == Placed(data, base);
      assert DataLines(data, 0, width, 0) == DataLines(data, base, width, 0);
    } else if Min(width, |data|) > 255 {
      LongRecordIsUnreadable(base, data[..Min(width, |data|)]);
    } else if 0 <= base && base + |data| <= 0x1_0000 {
      DecodesFrom(data, base, width, 0);
    } else if DecodeLines(lines) == Some(Placed(data, base)) {
      DecodedAddresses(lines);
      NotAllPlaced(data, base, DecodeLines(lines).value);
    }
  }
}
