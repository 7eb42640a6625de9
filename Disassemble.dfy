/**
 * Diagnostic dump kernels (Source/Core/Disassemble.cpp).
 *
 * Each kernel walks a word or byte buffer with counters and writes one text
 * line per step.  Here a kernel returns the sequence of records it would have
 * written: the values each printed line is made of, in file order.  The text
 * an instruction printer makes of (address, opcode) is not modelled.
 */
module Disassemble {
  import opened Endian

  /** An unsigned 32-bit integer: the C `u32` of addresses, counters and sizes. */
  type u32 = x: int | 0 <= x < 0x1_0000_0000

  const U32_MOD: int := 0x1_0000_0000

  /** `a + b` in u32 arithmetic: wraps around at 2^32. */
  function AddU32(a: u32, b: nat): u32
  {
    (a + b) % U32_MOD
  }

  /** `a - b` in u32 arithmetic. */
  function SubU32(a: u32, b: u32): u32
  {
    (a - b) % U32_MOD
  }

  /** Adding in two steps wraps around like adding the sum once. */
  lemma AddU32Twice(a: u32, b: nat, c: nat)
    ensures AddU32(AddU32(a, b), c) == AddU32(a, b + c)
  {
    var q := (a + b) / U32_MOD;
    assert a + b == q * U32_MOD + AddU32(a, b);
    assert AddU32(a, b) + c == (a + b + c) - q * U32_MOD;
  }

  datatype Option<T> = None | Some(value: T)

  /** One line `0x%08x: <0x%08x> %s` of a disassembly listing: the address and the opcode the line is printed from. */
  datatype DisasmLine = DisasmLine(address: u32, op: bv32)

  /** One line of a memory dump: the address, the four words in hex, and the ASCII column. */
  datatype MemoryLine = MemoryLine(address: u32, words: seq<bv32>, ascii: seq<char>)

  /** One line `0x%08x: <text>` of the strings dump. */
  datatype StringReport = StringReport(start: u32, text: seq<bv8>)

  // ---------------------------------------------------------------------------
  // Disassembly of an opcode range

  /**
   * Dump_DisassembleMIPSRange: one line per opcode in [b, e), the address
   * advancing by 4 per line; each line shows the opcode after GetCorrectOp.
   */
  method DisassembleMIPSRange(addressOffset: u32, ops: seq<bv32>, getCorrectOp: bv32 -> bv32)
    returns (lines: seq<DisasmLine>)
    ensures |lines| == |ops|
    ensures forall k :: 0 <= k < |ops| ==>
      lines[k] == DisasmLine(AddU32(addressOffset, 4 * k), getCorrectOp(ops[k]))
  {
    var address := addressOffset;
    var p := 0;
    lines := [];
    while p < |ops|
      invariant 0 <= p <= |ops|
      invariant address == AddU32(addressOffset, 4 * p)
      invariant |lines| == p
      invariant forall k :: 0 <= k < p ==>
        lines[k] == DisasmLine(AddU32(addressOffset, 4 * k), getCorrectOp(ops[k]))
    {
      var op := getCorrectOp(ops[p]);
      lines := lines + [DisasmLine(address, op)];
      AddU32Twice(addressOffset, 4 * p, 4);
      address := AddU32(address, 4);
      p := p + 1;
    }
  }

  /**
   * Dump_DisassembleRSPRange: one line per opcode in [b, e), the address
   * advancing by 4 per line; each line shows the raw opcode.
   */
  method DisassembleRSPRange(addressOffset: u32, ops: seq<bv32>) returns (lines: seq<DisasmLine>)
    ensures |lines| == |ops|
    ensures forall k :: 0 <= k < |ops| ==> lines[k] == DisasmLine(AddU32(addressOffset, 4 * k), ops[k])
  {
    var address := addressOffset;
    var p := 0;
    lines := [];
    while p < |ops|
      invariant 0 <= p <= |ops|
      invariant address == AddU32(addressOffset, 4 * p)
      invariant |lines| == p
      invariant forall k :: 0 <= k < p ==> lines[k] == DisasmLine(AddU32(addressOffset, 4 * k), ops[k])
    {
      lines := lines + [DisasmLine(address, ops[p])];
      AddU32Twice(addressOffset, 4 * p, 4);
      address := AddU32(address, 4);
      p := p + 1;
    }
  }

  /** The end of the range after Dump_Disassemble's hack: an end below the start is a length. */
  function NormalizedEnd(start: u32, end: u32): u32
  {
    if end < start then AddU32(start, end) else end
  }

  /** The number of bytes Dump_Disassemble covers: `end - start` in u32 arithmetic, after the hack. */
  function RangeBytes(start: u32, end: u32): (n: u32)
    ensures end < start ==> n == end
    ensures start <= end ==> n == end - start
  {
    SubU32(NormalizedEnd(start, end), start)
  }

  /** The number of opcodes `p` steps over while `p < e`, e lying n bytes after b: n / 4 rounded up. */
  function OpCount(n: nat): (c: nat)
    ensures 4 * c >= n && 4 * (c - 1) < n
  {
    (n + 3) / 4
  }

  /**
   * Dump_Disassemble: normalises the range, looks up the host memory for
   * `start` (None when the address is not readable: no file is written), and
   * disassembles ceil((end - start) / 4) opcodes from address `start`.
   */
  method DumpDisassemble(start: u32, end: u32, base: Option<seq<bv32>>, getCorrectOp: bv32 -> bv32)
    returns (r: Option<seq<DisasmLine>>)
    requires base.Some? ==> OpCount(RangeBytes(start, end)) <= |base.value|
    ensures r.Some? <==> base.Some?
    ensures r.Some? ==> |r.value| == OpCount(RangeBytes(start, end))
    ensures r.Some? ==> forall k :: 0 <= k < |r.value| ==>
      r.value[k] == DisasmLine(AddU32(start, 4 * k), getCorrectOp(base.value[k]))
  {
    var e := NormalizedEnd(start, end);
    if base.None? {
      return None;
    }
    var ops := base.value[..OpCount(SubU32(e, start))];
    var lines := DisassembleMIPSRange(start, ops, getCorrectOp);
    r := Some(lines);
  }

  // ---------------------------------------------------------------------------
  // Memory dump

  /** How the ASCII column shows a byte: itself when in [32, 128), otherwise '.'. */
  function Shown(c: bv8): char
  {
    if 32 <= c < 128 then (c as int) as char else '.'
  }

  /** Where byte i of a line lands in its ASCII column: one space has been written after every fourth byte before it. */
  lemma ColumnIndex(i: nat)
    ensures (i + i / 4) % 5 == i % 4 && (i + i / 4) / 5 == i / 4
    ensures 4 * (i / 4) + i % 4 == i
    ensures i % 4 == 3 ==> i + i / 4 + 1 == 5 * (i / 4) + 4
  {
    assert i + i / 4 == 5 * (i / 4) + i % 4;
  }

  /** The column after the fourth byte of group g holds a separator. */
  lemma SpaceIndex(g: nat)
    ensures (5 * g + 4) % 5 == 4
  {
  }

  /** Character j of the ASCII column of a line with bytes b: a separator at every fifth place, byte 4 * (j / 5) + j % 5 elsewhere. */
  function ColumnChar(b: seq<bv8>, j: nat): char
    requires |b| == 16 && j < 20
  {
    if j % 5 == 4 then ' ' else Shown(b[4 * (j / 5) + j % 5])
  }

  /** Byte i of a line is character i + i / 4 of its column, and a separator follows the fourth byte of each group. */
  lemma ColumnCharAt(b: seq<bv8>, i: nat)
    requires |b| == 16 && i < 16
    ensures i + i / 4 < 20 && ColumnChar(b, i + i / 4) == Shown(b[i])
    ensures i % 4 == 3 ==> i + i / 4 + 1 < 20 && ColumnChar(b, i + i / 4 + 1) == ' '
  {
    ColumnIndex(i);
    if i % 4 == 3 {
      SpaceIndex(i / 4);
    }
  }

  /** The ASCII column of one memory-dump line. */
  function AsciiColumn(b: seq<bv8>): (col: seq<char>)
    requires |b| == 16
    ensures |col| == 20
  {
    seq(20, j requires 0 <= j < 20 => ColumnChar(b, j))
  }

  /** The ASCII column shows the sixteen bytes in order, byte i at position i + i / 4, each as itself when in [32, 128) and as '.' otherwise. */
  lemma AsciiColumnBytes(b: seq<bv8>)
    requires |b| == 16
    ensures forall i :: 0 <= i < 16 ==> AsciiColumn(b)[i + i / 4] == Shown(b[i])
  {
    forall i | 0 <= i < 16
      ensures AsciiColumn(b)[i + i / 4] == Shown(b[i])
    {
      ColumnCharAt(b, i);
    }
  }

  /** A space follows every fourth byte of the ASCII column. */
  lemma AsciiColumnSeparators(b: seq<bv8>)
    requires |b| == 16
    ensures forall g :: 0 <= g < 4 ==> AsciiColumn(b)[5 * g + 4] == ' '
  {
    forall g | 0 <= g < 4
      ensures AsciiColumn(b)[5 * g + 4] == ' '
    {
      SpaceIndex(g);
    }
  }

  /** Every character of the ASCII column is a space, a dot or a printable character. */
  lemma AsciiColumnPrintable(b: seq<bv8>)
    requires |b| == 16
    ensures forall j :: 0 <= j < 20 ==> AsciiColumn(b)[j] == ' ' || AsciiColumn(b)[j] == '.' || 32 <= AsciiColumn(b)[j] as int < 128
  {
  }

  /**
   * The inner loop of Dump_MemoryRange over the 16 bytes p8 of one line: byte i
   * is read at i ^ U8_TWIDDLE, shown as itself or '.', and a space follows when
   * i % 4 == 3.
   */
  method AsciiColumnOf(m: EndianMode, p8: seq<bv8>) returns (col: seq<char>)
    requires |p8| == 16
    ensures col == AsciiColumn(TwiddledBytes(m, p8))
  {
    ghost var tb := TwiddledBytes(m, p8);
    col := [];
    var i := 0;
    while i < 16
      invariant 0 <= i <= 16
      invariant |col| == i + i / 4
      invariant forall j :: 0 <= j < |col| ==> col[j] == ColumnChar(tb, j)
    {
      var c := ReadTwiddledByte(m, p8, i);
      ColumnCharAt(tb, i);
      ghost var before := col;
      col := col + [Shown(c)];
      if i % 4 == 3 {
        col := col + [' '];
        assert col[|before| + 1] == ' ';
      }
      assert forall j :: 0 <= j < |before| ==> col[j] == before[j];
      assert col[|before|] == Shown(c);
      i := i + 1;
    }
  }

  /** One line of Dump_MemoryRange: the host image of four words, whose ASCII column reads the bytes in big-endian order. */
  method DumpLine(m: EndianMode, address: u32, words: seq<bv32>) returns (line: MemoryLine)
    requires |words| == 4
    ensures line == MemoryLine(address, words, AsciiColumn(BigEndianImage(words)))
  {
    var p8 := HostImage(m, words);
    var ascii := AsciiColumnOf(m, p8);
    TwiddledHostImageIsBigEndian(m, words);
    line := MemoryLine(address, words, ascii);
  }

  /**
   * Dump_MemoryRange: one line per four words, the address advancing by 16;
   * line k shows words 4k .. 4k+3 and the ASCII column of their bytes in the
   * emulated machine's order, whatever the host's byte order.
   */
  method DumpMemoryRange(m: EndianMode, addressOffset: u32, words: seq<bv32>) returns (lines: seq<MemoryLine>)
    requires |words| % 4 == 0
    ensures |lines| == |words| / 4
    ensures forall k :: 0 <= k < |lines| ==>
      lines[k] == MemoryLine(AddU32(addressOffset, 16 * k), words[4 * k..4 * k + 4],
                             AsciiColumn(BigEndianImage(words[4 * k..4 * k + 4])))
  {
    var address := addressOffset;
    var p := 0;
    lines := [];
    while p < |words|
      invariant 0 <= p <= |words| && p == 4 * |lines|
      invariant address == AddU32(addressOffset, 16 * |lines|)
      invariant forall k :: 0 <= k < |lines| ==>
        lines[k] == MemoryLine(AddU32(addressOffset, 16 * k), words[4 * k..4 * k + 4],
                               AsciiColumn(BigEndianImage(words[4 * k..4 * k + 4])))
    {
      AddU32Twice(addressOffset, 16 * |lines|, 16);
      var line := DumpLine(m, address, words[p..p + 4]);
      ghost var before := lines;
      lines := lines + [line];
      assert forall k :: 0 <= k < |before| ==> lines[k] == before[k];
      assert words[p..p + 4] == words[4 * |before|..4 * |before| + 4];
      assert lines[|before|] == MemoryLine(AddU32(addressOffset, 16 * |before|), words[p..p + 4],
                                           AsciiColumn(BigEndianImage(words[p..p + 4])));
      address := AddU32(address, 16);
      p := p + 4;
    }
  }

  // ---------------------------------------------------------------------------
  // The vector coprocessor's memory

  const RSP_START: u32 := 0xa4000000
  const RSP_END: u32 := 0xa4002000

  /** What Dump_RSPDisassemble writes, in file order: the data memory as a hex dump, then the instruction memory disassembled. */
  datatype RSPDump = RSPDump(data: seq<MemoryLine>, code: seq<DisasmLine>)

  /**
   * Dump_RSPDisassemble: the 0x2000 bytes from 0xa4000000 are split in two
   * fixed halves; the first 0x1000 bytes are hex-dumped from 0xa4000000 (256
   * lines), the second 0x1000 bytes disassembled from 0xa4001000 (1024 lines).
   */
  method DumpRSPDisassemble(m: EndianMode, base: Option<seq<bv32>>) returns (r: Option<RSPDump>)
    requires base.Some? ==> |base.value| >= (RSP_END - RSP_START) / 4
    ensures r.Some? <==> base.Some?
    ensures r.Some? ==> |r.value.data| == 256 && |r.value.code| == 1024
    ensures r.Some? ==> forall k :: 0 <= k < 256 ==>
      r.value.data[k] == MemoryLine(RSP_START + 16 * k, base.value[4 * k..4 * k + 4],
                                    AsciiColumn(BigEndianImage(base.value[4 * k..4 * k + 4])))
    ensures r.Some? ==> forall k :: 0 <= k < 1024 ==>
      r.value.code[k] == DisasmLine(RSP_START + 0x1000 + 4 * k, base.value[0x400 + k])
  {
    if base.None? {
      return None;
    }
    var mem := base.value;
    var data := DumpMemoryRange(m, RSP_START, mem[0x000..0x400]);
    var code := DisassembleRSPRange(RSP_START + 0x1000, mem[0x400..0x800]);
    forall k | 0 <= k < 256
      ensures data[k] == MemoryLine(RSP_START + 16 * k, mem[4 * k..4 * k + 4],
                                    AsciiColumn(BigEndianImage(mem[4 * k..4 * k + 4])))
    {
      assert AddU32(RSP_START, 16 * k) == RSP_START + 16 * k;
      assert mem[0x000..0x400][4 * k..4 * k + 4] == mem[4 * k..4 * k + 4];
    }
    forall k | 0 <= k < 1024
      ensures code[k] == DisasmLine(RSP_START + 0x1000 + 4 * k, mem[0x400 + k])
    {
      assert AddU32(RSP_START + 0x1000, 4 * k) == RSP_START + 0x1000 + 4 * k;
      assert mem[0x400..0x800][k] == mem[0x400 + k];
    }
    r := Some(RSPDump(data, code));
  }

  // ---------------------------------------------------------------------------
  // Strings in the ROM

  /** Dump_Strings' MIN_LENGTH: shorter runs are not reported. */
  const MIN_LENGTH: nat := 5

  /**
   * The ROM as Dump_Strings reads it: byte i is ReadValueRaw<u8>(i ^ 0x3).  The
   * XOR is the constant 3 on either host, which is the little-endian byte
   * twiddle.
   */
  function StringView(rom: seq<bv8>): (v: seq<bv8>)
    requires |rom| % 4 == 0
    ensures |v| == |rom|
  {
    TwiddledBytes(Little, rom)
  }

  /** ReadValueRaw<u8>(i ^ 0x3): byte i of the view. */
  method ReadStringByte(rom: seq<bv8>, i: nat) returns (c: bv8)
    requires |rom| % 4 == 0 && i < |rom|
    ensures c == StringView(rom)[i]
  {
    c := ReadTwiddledByte(Little, rom, i);
  }

  /** A byte that may be part of a string: in [' ', 200). */
  predicate IsStringByte(c: bv8)
  {
    32 <= c < 200
  }

  /** The end of the run of string bytes that starts at s: the first offset from s on whose byte is not a string byte, or the size. */
  function RunEnd(v: seq<bv8>, s: nat): (e: nat)
    requires s <= |v|
    ensures s <= e <= |v|
    ensures forall i :: s <= i < e ==> IsStringByte(v[i])
    ensures e < |v| ==> !IsStringByte(v[e])
    decreases |v| - s
  {
    if s == |v| || !IsStringByte(v[s]) then s else RunEnd(v, s + 1)
  }

  /** [s, e) is a run Dump_Strings reports: maximal, at least MIN_LENGTH long, and ended by a byte that is not a string byte. */
  ghost predicate ReportedRun(v: seq<bv8>, s: nat, e: nat)
  {
    s + MIN_LENGTH <= e < |v| &&
    (forall i :: s <= i < e ==> IsStringByte(v[i])) &&
    !IsStringByte(v[e]) &&
    (s == 0 || !IsStringByte(v[s - 1]))
  }

  /** The offset just past a report's bytes. */
  function End(r: StringReport): int
  {
    r.start + |r.text|
  }

  /** r reports a reported run, with that run's bytes. */
  ghost predicate IsReportOf(v: seq<bv8>, r: StringReport)
  {
    ReportedRun(v, r.start, End(r)) && r.text == v[r.start..End(r)]
  }

  /**
   * The reports for the part of the view from offset s on, s not inside a run
   * of string bytes: the maximal runs, each reported when it is at least
   * MIN_LENGTH long and a byte that is not a string byte follows it.
   */
  function ReportsFrom(v: seq<bv8>, s: nat): seq<StringReport>
    requires |v| < U32_MOD && s <= |v|
    decreases |v| - s
  {
    if s == |v| then []
    else if !IsStringByte(v[s]) then ReportsFrom(v, s + 1)
    else
      var e := RunEnd(v, s);
      if e == |v| then []
      else (if e - s >= MIN_LENGTH then [StringReport(s, v[s..e])] else []) + ReportsFrom(v, e + 1)
  }

  /** Every report from offset s on starts at or after s. */
  lemma {:induction false} ReportsFromAfter(v: seq<bv8>, s: nat)
    requires |v| < U32_MOD && s <= |v|
    ensures forall r <- ReportsFrom(v, s) :: s <= r.start
    decreases |v| - s
  {
    if s == |v| {
    } else if !IsStringByte(v[s]) {
      ReportsFromAfter(v, s + 1);
    } else {
      var e := RunEnd(v, s);
      if e < |v| {
        ReportsFromAfter(v, e + 1);
      }
    }
  }

  /** Every report from offset s on, s not inside a run of string bytes, reports a reported run with its bytes. */
  lemma {:induction false} ReportsFromValid(v: seq<bv8>, s: nat)
    requires |v| < U32_MOD && s <= |v|
    requires s == 0 || !IsStringByte(v[s - 1])
    ensures forall r <- ReportsFrom(v, s) :: IsReportOf(v, r)
    decreases |v| - s
  {
    if s == |v| {
    } else if !IsStringByte(v[s]) {
      ReportsFromValid(v, s + 1);
    } else {
      var e := RunEnd(v, s);
      if e < |v| {
        ReportsFromValid(v, e + 1);
      }
    }
  }

  /** Reports in increasing, non-overlapping order: each ends before the next one starts. */
  predicate Ordered(rs: seq<StringReport>)
  {
    |rs| <= 1 || (End(rs[0]) < rs[1].start && Ordered(rs[1..]))
  }

  /** In an ordered sequence every report ends before any later report starts, not only the next one. */
  lemma {:induction false} OrderedPairs(rs: seq<StringReport>)
    requires Ordered(rs)
    ensures forall k, l :: 0 <= k < l < |rs| ==> End(rs[k]) < rs[l].start
  {
    if |rs| > 1 {
      var tail := rs[1..];
      OrderedPairs(tail);
      forall k, l | 0 <= k < l < |rs|
        ensures End(rs[k]) < rs[l].start
      {
        assert rs[l] == tail[l - 1];
        if k > 0 {
          assert rs[k] == tail[k - 1];
        } else if l > 1 {
          assert rs[1] == tail[0];
          assert End(tail[0]) < tail[l - 1].start;
        }
      }
    }
  }

  /** A report that ends before the first report of an ordered sequence can be put in front of it. */
  lemma OrderedPrepend(h: StringReport, rest: seq<StringReport>)
    requires Ordered(rest)
    requires rest == [] || End(h) < rest[0].start
    ensures Ordered([h] + rest)
  {
    assert ([h] + rest)[1..] == rest;
  }

  /** Reports from offset s on come in increasing, non-overlapping order. */
  lemma {:induction false} ReportsFromOrdered(v: seq<bv8>, s: nat)
    requires |v| < U32_MOD && s <= |v|
    ensures Ordered(ReportsFrom(v, s))
    decreases |v| - s
  {
    if s == |v| {
    } else if !IsStringByte(v[s]) {
      ReportsFromOrdered(v, s + 1);
      assert ReportsFrom(v, s) == ReportsFrom(v, s + 1);
    } else {
      var e := RunEnd(v, s);
      if e < |v| {
        var rest := ReportsFrom(v, e + 1);
        ReportsFromOrdered(v, e + 1);
        if e - s >= MIN_LENGTH {
          var h := StringReport(s, v[s..e]);
          ReportsFromAfter(v, e + 1);
          assert End(h) == e;
          if rest != [] {
            assert rest[0] in rest;
          }
          OrderedPrepend(h, rest);
          assert ReportsFrom(v, s) == [h] + rest;
        } else {
          assert ReportsFrom(v, s) == [] + rest;
          assert [] + rest == rest;
        }
      }
    }
  }

  /** All reports of the strings dump, in file order. */
  function StringReports(rom: seq<bv8>): seq<StringReport>
    requires |rom| % 4 == 0 && |rom| < U32_MOD
  {
    ReportsFrom(StringView(rom), 0)
  }

  /**
   * Every report of the strings dump is a reported run of the view with its
   * bytes, every reported byte is in [' ', 200), and reports come in
   * increasing, non-overlapping order.
   */
  lemma StringReportsSound(rom: seq<bv8>)
    requires |rom| % 4 == 0 && |rom| < U32_MOD
    ensures forall r <- StringReports(rom) :: IsReportOf(StringView(rom), r)
    ensures forall r <- StringReports(rom), i | 0 <= i < |r.text| :: IsStringByte(r.text[i])
    ensures forall k, l :: 0 <= k < l < |StringReports(rom)| ==>
      End(StringReports(rom)[k]) < StringReports(rom)[l].start
  {
    var v := StringView(rom);
    ReportsFromValid(v, 0);
    ReportsFromOrdered(v, 0);
    OrderedPairs(StringReports(rom));
    forall r <- StringReports(rom), i | 0 <= i < |r.text|
      ensures IsStringByte(r.text[i])
    {
      assert r.text[i] == v[r.start + i];
    }
  }

  /** A reported run is found from any offset s at or before it that is not inside a run of string bytes. */
  lemma {:induction false} ReportsFromComplete(v: seq<bv8>, s: nat, a: nat, b: nat)
    requires |v| < U32_MOD
    requires ReportedRun(v, a, b) && s <= a
    requires s == 0 || !IsStringByte(v[s - 1])
    ensures StringReport(a, v[a..b]) in ReportsFrom(v, s)
    decreases |v| - s
  {
    var e := RunEnd(v, s);
    if s == a {
      assert IsStringByte(v[a]);
      assert e == b;
    } else if !IsStringByte(v[s]) {
      ReportsFromComplete(v, s + 1, a, b);
    } else {
      assert e <= a - 1;
      ReportsFromComplete(v, e + 1, a, b);
    }
  }

  /** Every reported run of the view, with its bytes, is among the reports of the strings dump. */
  lemma StringReportsComplete(rom: seq<bv8>, a: nat, b: nat)
    requires |rom| % 4 == 0 && |rom| < U32_MOD
    requires ReportedRun(StringView(rom), a, b)
    ensures StringReport(a, StringView(rom)[a..b]) in StringReports(rom)
  {
    ReportsFromComplete(StringView(rom), 0, a, b);
  }

  /** A run of string bytes that reaches the last ROM byte is never reported: every report lies wholly before it. */
  lemma TrailingRunNotReported(rom: seq<bv8>, s: nat)
    requires |rom| % 4 == 0 && |rom| < U32_MOD && s < |rom|
    requires forall i :: s <= i < |rom| ==> IsStringByte(StringView(rom)[i])
    ensures forall r <- StringReports(rom) :: End(r) < s
  {
    StringReportsSound(rom);
    forall r <- StringReports(rom)
      ensures End(r) < s
    {
      assert IsReportOf(StringView(rom), r);
      assert !IsStringByte(StringView(rom)[End(r)]);
    }
  }

  /** The inner loop of Dump_Strings: the `count` bytes read at (start + j) ^ 0x3. */
  method ReadText(rom: seq<bv8>, start: u32, count: u32) returns (text: seq<bv8>)
    requires |rom| % 4 == 0 && start + count <= |rom|
    ensures text == StringView(rom)[start..start + count]
  {
    ghost var v := StringView(rom);
    text := [];
    var j: u32 := 0;
    while j < count
      invariant 0 <= j <= count
      invariant text == v[start..start + j]
    {
      var c := ReadStringByte(rom, start + j);
      text := text + [c];
      j := j + 1;
    }
  }

  /** One step of ReportsFrom at an offset i whose byte is not a string byte and ends the run [s, i). */
  lemma ReportsFromStep(v: seq<bv8>, s: nat, i: nat)
    requires |v| < U32_MOD && s <= i < |v|
    requires forall j :: s <= j < i ==> IsStringByte(v[j])
    requires !IsStringByte(v[i])
    ensures ReportsFrom(v, s) ==
      (if i - s >= MIN_LENGTH then [StringReport(s, v[s..i])] else []) + ReportsFrom(v, i + 1)
  {
    if s < i {
      assert RunEnd(v, s) == i;
    }
  }

  /** A run that reaches the end of the view contributes no report. */
  lemma ReportsFromTrailing(v: seq<bv8>, s: nat)
    requires |v| < U32_MOD && s <= |v|
    requires forall j :: s <= j < |v| ==> IsStringByte(v[j])
    ensures ReportsFrom(v, s) == []
  {
    if s < |v| {
      assert RunEnd(v, s) == |v|;
    }
  }

  /** Reaching the byte at i, which is not a string byte and ends the run [s, i), keeps the scan's account of the reports: those already made, plus the run's report when it is long enough, plus the reports from i + 1 on. */
  lemma ReportsAtRunEnd(v: seq<bv8>, s: nat, i: nat, before: seq<StringReport>, total: seq<StringReport>)
    requires |v| < U32_MOD && s <= i < |v|
    requires forall j :: s <= j < i ==> IsStringByte(v[j])
    requires !IsStringByte(v[i])
    requires before + ReportsFrom(v, s) == total
    ensures i - s >= MIN_LENGTH ==> (before + [StringReport(s, v[s..i])]) + ReportsFrom(v, i + 1) == total
    ensures i - s < MIN_LENGTH ==> before + ReportsFrom(v, i + 1) == total
  {
    ReportsFromStep(v, s, i);
    if i - s >= MIN_LENGTH {
      var found := [StringReport(s, v[s..i])];
      assert (before + found) + ReportsFrom(v, i + 1) == before + (found + ReportsFrom(v, i + 1));
    }
  }

  /**
   * Dump_Strings: scans the ROM once with ascii_start/ascii_count, printing
   * each run of string bytes of length at least MIN_LENGTH when the first byte
   * after it that is not a string byte is reached; such a byte resets the
   * count.  Nothing is printed after the loop.
   */
  method DumpStrings(rom: seq<bv8>) returns (reports: seq<StringReport>)
    requires |rom| % 4 == 0 && |rom| < U32_MOD
    ensures reports == StringReports(rom)
  {
    ghost var v := StringView(rom);
    ghost var total := ReportsFrom(v, 0);
    assert |v| == |rom|;
    var asciiStart: u32 := 0;
    var asciiCount: u32 := 0;
    reports := [];
    var i: u32 := 0;
    ghost var s: nat := 0;
    while i < |rom|
      invariant 0 <= i <= |rom|
      invariant s + asciiCount == i
      invariant asciiCount > 0 ==> asciiStart == s
      invariant forall j :: s <= j < i ==> IsStringByte(v[j])
      invariant s == 0 || !IsStringByte(v[s - 1])
      invariant reports + ReportsFrom(v, s) == total
      invariant |v| == |rom|
    {
      var c := ReadStringByte(rom, i);
      if IsStringByte(c) {
        if asciiCount == 0 {
          asciiStart := i;
        }
        asciiCount := asciiCount + 1;
        forall j | s <= j < i + 1
          ensures IsStringByte(v[j])
        {
        }
      } else {
        ReportsAtRunEnd(v, s, i, reports, total);
        if asciiCount >= MIN_LENGTH {
          var text := ReadText(rom, asciiStart, asciiCount);
          assert StringReport(asciiStart, text) == StringReport(s, v[s..i]);
          reports := reports + [StringReport(asciiStart, text)];
        }
        asciiCount := 0;
        s := i + 1;
      }
      i := i + 1;
    }
    ReportsFromTrailing(v, s);
  }
}
