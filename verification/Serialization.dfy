/** The serialized form of programs: a 16-byte header and the slots, all little-endian. */
module Serialization {
  import opened Words
  import opened Common
  import opened Bytecode
  import opened Verifier

  const BLOB_MAGIC: uint32 := 0x4650424d
  const BLOB_VERSION: uint32 := 1
  const HEADER_SIZE := 16

  // ----- the format -----

  function Header(registerCount: uint32, instructionCount: uint32): (bs: seq<byte>)
    ensures |bs| == HEADER_SIZE
  {
    ToLE(BLOB_MAGIC, 4) + ToLE(BLOB_VERSION, 4) + ToLE(registerCount, 4) + ToLE(instructionCount, 4)
  }

  function SlotBytes(code: seq<Instruction>): (bs: seq<byte>)
    ensures |bs| == 8 * |code|
  {
    if code == [] then [] else ToLE(code[0].Bits(), 8) + SlotBytes(code[1..])
  }

  /** A program as bytes. A register count is cast to 32 unsigned bits. */
  function Serialized(p: Program): seq<byte>
    requires 0 <= p.registerCount <= INT32_MAX && |p.code| <= UINT32_MAX
  {
    Header(p.registerCount, |p.code|) + SlotBytes(p.code)
  }

  /** The word at an offset. */
  function WordAt(b: seq<byte>, offset: nat, n: nat): nat
    requires offset + n <= |b|
  {
    LE(b[offset..offset + n])
  }

  /** The register and instruction counts of a well-formed header and size. */
  function ParsedHeader(b: seq<byte>): Option<(uint32, uint32)> {
    if |b| < HEADER_SIZE then None else
      LEBound(b[8..12]); LEBound(b[12..16]); Pow256Values();
      var registerCount, instructionCount := WordAt(b, 8, 4), WordAt(b, 12, 4);
      if WordAt(b, 0, 4) != BLOB_MAGIC || WordAt(b, 4, 4) != BLOB_VERSION then None
      else if registerCount > INT32_MAX || HEADER_SIZE + instructionCount * 8 != |b| then None
      else Some((registerCount, instructionCount))
  }

  function SlotAt(b: seq<byte>, offset: nat): Instruction
    requires offset + 8 <= |b|
  {
    LEBound(b[offset..offset + 8]); Pow256Values();
    FromBits(WordAt(b, offset, 8))
  }

  /** `n` slots from an offset on. */
  function SlotsFrom(b: seq<byte>, offset: nat, n: nat): (code: seq<Instruction>)
    requires offset + 8 * n <= |b|
    ensures |code| == n
    decreases n
  {
    if n == 0 then [] else [SlotAt(b, offset)] + SlotsFrom(b, offset + 8, n - 1)
  }

  /** The program a blob stands for, if its header is well formed. */
  function Parsed(b: seq<byte>): Option<Program> {
    match ParsedHeader(b)
    case None => None
    case Some(h) => Some(Program(SlotsFrom(b, HEADER_SIZE, h.1), h.0))
  }

  /** The program a loader accepts: a well-formed blob of a program the verifier accepts. */
  ghost function Accepted(b: seq<byte>): Option<Program> {
    var p := Parsed(b);
    if p.Some? && Verified(p.value) then p else None
  }

  // ----- round trips -----

  lemma {:induction false} SlotsRoundTrip(prefix: seq<byte>, code: seq<Instruction>)
    ensures SlotsFrom(prefix + SlotBytes(code), |prefix|, |code|) == code
    decreases |code|
  {
    if code != [] {
      var first, rest := ToLE(code[0].Bits(), 8), SlotBytes(code[1..]);
      var b := prefix + SlotBytes(code);
      assert b == (prefix + first) + rest;
      SlotsRoundTrip(prefix + first, code[1..]);
      assert b[|prefix|..|prefix| + 8] == first;
      SlotRoundTrip(code[0]);
      assert SlotAt(b, |prefix|) == code[0];
      assert code == [code[0]] + code[1..];
    }
  }

  lemma SlotRoundTrip(i: Instruction)
    ensures LE(ToLE(i.Bits(), 8)) == i.Bits() && FromBits(i.Bits()) == i
  {
    Pow256Values();
    LEOfToLE(i.Bits(), 8);
    FromBitsOfBits(i);
  }

  lemma HeaderRoundTrip(registerCount: uint32, instructionCount: uint32, rest: seq<byte>)
    requires registerCount <= INT32_MAX && |rest| == 8 * instructionCount
    ensures ParsedHeader(Header(registerCount, instructionCount) + rest) == Some((registerCount, instructionCount))
  {
    hide ToLE, LE, Pow256;
    var b := Header(registerCount, instructionCount) + rest;
    Pow256Values();
    LEOfToLE(BLOB_MAGIC, 4);
    LEOfToLE(BLOB_VERSION, 4);
    LEOfToLE(registerCount, 4);
    LEOfToLE(instructionCount, 4);
    assert b[0..4] == ToLE(BLOB_MAGIC, 4) && b[4..8] == ToLE(BLOB_VERSION, 4);
    assert b[8..12] == ToLE(registerCount, 4) && b[12..16] == ToLE(instructionCount, 4);
  }

  /** Loading what was serialized gives the same registers and slots; it is accepted exactly when
      the verifier accepts the program. */
  lemma LoadOfSerialized(p: Program)
    requires 0 <= p.registerCount <= INT32_MAX && |p.code| <= UINT32_MAX
    ensures Parsed(Serialized(p)) == Some(p)
    ensures Accepted(Serialized(p)) == if Verified(p) then Some(p) else None
  {
    hide Header, SlotBytes, SlotsFrom, ParsedHeader, Verified;
    HeaderRoundTrip(p.registerCount, |p.code|, SlotBytes(p.code));
    SlotsRoundTrip(Header(p.registerCount, |p.code|), p.code);
  }

  lemma {:induction false} SlotBytesOfSlots(b: seq<byte>, offset: nat, n: nat)
    requires offset + 8 * n == |b|
    ensures SlotBytes(SlotsFrom(b, offset, n)) == b[offset..]
    decreases n
  {
    if n > 0 {
      SlotBytesOfSlots(b, offset + 8, n - 1);
      var code, word := SlotsFrom(b, offset, n), b[offset..offset + 8];
      assert code[1..] == SlotsFrom(b, offset + 8, n - 1);
      LEBound(word); Pow256Values();
      BitsOfFromBits(LE(word));
      ToLEOfLE(word);
      FirstWord(b, offset);
    }
  }

  lemma FirstWord(b: seq<byte>, offset: nat)
    requires offset + 8 <= |b|
    ensures b[offset..] == b[offset..offset + 8] + b[offset + 8..]
  {
  }

  lemma HeaderOfParsed(b: seq<byte>)
    requires ParsedHeader(b).Some?
    ensures var h := ParsedHeader(b).value; |b| == HEADER_SIZE + 8 * h.1 && Header(h.0, h.1) == b[..HEADER_SIZE]
  {
    ToLEOfLE(b[0..4]);
    ToLEOfLE(b[4..8]);
    ToLEOfLE(b[8..12]);
    ToLEOfLE(b[12..16]);
    hide ToLE, LE;
    assert b[..16] == b[0..4] + b[4..8] + b[8..12] + b[12..16];
  }

  /** Serializing what was loaded gives back the blob byte for byte. */
  lemma SerializedOfLoad(b: seq<byte>)
    requires Parsed(b).Some?
    ensures var p := Parsed(b).value;
      0 <= p.registerCount <= INT32_MAX && |p.code| <= UINT32_MAX && Serialized(p) == b
  {
    hide Header, SlotBytes, SlotsFrom;
    HeaderOfParsed(b);
    hide ParsedHeader;
    var h := ParsedHeader(b).value;
    SlotBytesOfSlots(b, HEADER_SIZE, h.1);
    assert b == b[..HEADER_SIZE] + b[HEADER_SIZE..];
  }

  // ----- the bytes of a blob, one by one -----

  /** Four bytes from `at` on are a 32-bit word, low byte first. */
  predicate Word4(b: seq<byte>, at: nat, x: nat)
    requires at + 4 <= |b|
  {
    && b[at] == x % 0x100 && b[at + 1] == x / 0x100 % 0x100
    && b[at + 2] == x / 0x1_0000 % 0x100 && b[at + 3] == x / 0x100_0000 % 0x100
  }

  /** A slot is its opcode, its three operand bytes and its payload, low byte first. */
  predicate SlotLaidOut(i: Instruction, b: seq<byte>, at: nat)
    requires at + 8 <= |b|
  {
    b[at] == i.op && b[at + 1] == i.a && b[at + 2] == i.b && b[at + 3] == i.c && Word4(b, at + 4, i.aux)
  }

  /** A blob: "MBPF", version 1, the register count, the slot count, and the slots. */
  predicate LaidOut(p: Program, b: seq<byte>) {
    && |b| == 16 + 8 * |p.code| && 0 <= p.registerCount
    && b[0] == 0x4d && b[1] == 0x42 && b[2] == 0x50 && b[3] == 0x46
    && b[4] == 1 && b[5] == 0 && b[6] == 0 && b[7] == 0
    && Word4(b, 8, p.registerCount) && Word4(b, 12, |p.code|)
    && forall k :: 0 <= k < |p.code| ==> SlotLaidOut(p.code[k], b, 16 + 8 * k)
  }

  lemma LowBytes(x: uint32)
    ensures ToLE(x, 4) == [x % 0x100, x / 0x100 % 0x100, x / 0x1_0000 % 0x100, x / 0x100_0000 % 0x100]
  {
    assert x / 0x1_0000 == x / 0x100 / 0x100 && x / 0x100_0000 == x / 0x100 / 0x100 / 0x100;
    assert ToLE(x, 4) == [x % 0x100] + ToLE(x / 0x100, 3);
    assert ToLE(x / 0x100, 3) == [x / 0x100 % 0x100] + ToLE(x / 0x100 / 0x100, 2);
    assert ToLE(x / 0x100 / 0x100, 2) == [x / 0x100 / 0x100 % 0x100] + [x / 0x100 / 0x100 / 0x100 % 0x100];
  }

  lemma LowByteFirst(low: byte, rest: nat, n: nat)
    ensures ToLE(low + 0x100 * rest, n + 1) == [low] + ToLE(rest, n)
  {
    assert (low + 0x100 * rest) % 0x100 == low && (low + 0x100 * rest) / 0x100 == rest;
  }

  /** The eight bytes written for a slot. */
  lemma SlotBytesLaidOut(i: Instruction)
    ensures ToLE(i.Bits(), 8) == [i.op, i.a, i.b, i.c] + ToLE(i.aux, 4)
    ensures SlotLaidOut(i, ToLE(i.Bits(), 8), 0)
  {
    hide ToLE;
    LowByteFirst(i.op, i.a + 0x100 * (i.b + 0x100 * (i.c + 0x100 * i.aux)), 7);
    LowByteFirst(i.a, i.b + 0x100 * (i.c + 0x100 * i.aux), 6);
    LowByteFirst(i.b, i.c + 0x100 * i.aux, 5);
    LowByteFirst(i.c, i.aux, 4);
    LowBytes(i.aux);
  }

  lemma {:induction false} SlotBytesAt(code: seq<Instruction>, k: nat)
    requires k < |code|
    ensures SlotBytes(code)[8 * k..8 * k + 8] == ToLE(code[k].Bits(), 8)
    decreases k
  {
    hide ToLE;
    if k > 0 {
      SlotBytesAt(code[1..], k - 1);
      assert SlotBytes(code)[8 * k..8 * k + 8] == SlotBytes(code[1..])[8 * (k - 1)..8 * (k - 1) + 8];
    }
  }

  lemma SlotMoved(i: Instruction, b: seq<byte>, at: nat)
    requires at + 8 <= |b| && SlotLaidOut(i, b[at..at + 8], 0)
    ensures SlotLaidOut(i, b, at)
  {
  }

  lemma FixedBytes()
    ensures ToLE(BLOB_MAGIC, 4) == [0x4d, 0x42, 0x50, 0x46] && ToLE(BLOB_VERSION, 4) == [1, 0, 0, 0]
  {
    hide ToLE;
    NoBytes();
    LowByteFirst(0x4d, 0x46_5042, 3);
    LowByteFirst(0x42, 0x4650, 2);
    LowByteFirst(0x50, 0x46, 1);
    LowByteFirst(0x46, 0, 0);
    LowByteFirst(1, 0, 3);
    LowByteFirst(0, 0, 2);
    LowByteFirst(0, 0, 1);
    LowByteFirst(0, 0, 0);
  }

  lemma NoBytes()
    ensures ToLE(0, 0) == []
  {
  }

  lemma Word4Moved(x: uint32, b: seq<byte>, at: nat)
    requires at + 4 <= |b| && b[at..at + 4] == ToLE(x, 4)
    ensures Word4(b, at, x)
  {
    hide ToLE;
    LowBytes(x);
    assert b[at] == b[at..at + 4][0] && b[at + 1] == b[at..at + 4][1];
    assert b[at + 2] == b[at..at + 4][2] && b[at + 3] == b[at..at + 4][3];
  }

  lemma HeaderLaidOut(registerCount: uint32, instructionCount: uint32)
    ensures var h := Header(registerCount, instructionCount);
      && h[0] == 0x4d && h[1] == 0x42 && h[2] == 0x50 && h[3] == 0x46
      && h[4] == 1 && h[5] == 0 && h[6] == 0 && h[7] == 0
      && Word4(h, 8, registerCount) && Word4(h, 12, instructionCount)
  {
    hide ToLE, Word4;
    FixedBytes();
    Word4Moved(registerCount, Header(registerCount, instructionCount), 8);
    Word4Moved(instructionCount, Header(registerCount, instructionCount), 12);
  }

  lemma SerializedIsLaidOut(p: Program)
    requires 0 <= p.registerCount <= INT32_MAX && |p.code| <= UINT32_MAX
    ensures LaidOut(p, Serialized(p))
  {
    hide Header, SlotBytes, SlotLaidOut, ToLE;
    HeaderLaidOut(p.registerCount, |p.code|);
    var b := Serialized(p);
    forall k | 0 <= k < |p.code| ensures SlotLaidOut(p.code[k], b, 16 + 8 * k) {
      SlotBytesAt(p.code, k);
      SlotBytesLaidOut(p.code[k]);
      assert b[16 + 8 * k..16 + 8 * k + 8] == SlotBytes(p.code)[8 * k..8 * k + 8];
      SlotMoved(p.code[k], b, 16 + 8 * k);
    }
  }

  lemma SlotDetermines(i: Instruction, a: seq<byte>, b: seq<byte>, at: nat, r: nat)
    requires at + 8 <= |a| && at + 8 <= |b| && r < 8 && SlotLaidOut(i, a, at) && SlotLaidOut(i, b, at)
    ensures a[at + r] == b[at + r]
  {
  }

  lemma LayoutDetermines(p: Program, a: seq<byte>, b: seq<byte>)
    requires LaidOut(p, a) && LaidOut(p, b)
    ensures a == b
  {
    hide SlotLaidOut;
    forall j | 16 <= j < |a| ensures a[j] == b[j] {
      var k, r := (j - 16) / 8, (j - 16) % 8;
      SlotDetermines(p.code[k], a, b, 16 + 8 * k, r);
    }
  }

  /** The blob of a program is the one laid out for it. */
  lemma SerializedExactly(p: Program, b: seq<byte>)
    requires 0 <= p.registerCount <= INT32_MAX && |p.code| <= UINT32_MAX
    ensures b == Serialized(p) <==> LaidOut(p, b)
  {
    hide LaidOut, Serialized;
    SerializedIsLaidOut(p);
    if LaidOut(p, b) {
      LayoutDetermines(p, b, Serialized(p));
    }
  }

  /** Loading gives exactly the program the blob is laid out for. */
  lemma ParsedExactly(b: seq<byte>, p: Program)
    ensures Parsed(b) == Some(p) <==>
            0 <= p.registerCount <= 0x7fff_ffff && |p.code| <= 0xffff_ffff && LaidOut(p, b)
  {
    hide LaidOut, Serialized, Parsed, Verified;
    if Parsed(b) == Some(p) {
      SerializedOfLoad(b);
      SerializedExactly(p, b);
    }
    if 0 <= p.registerCount <= INT32_MAX && |p.code| <= UINT32_MAX && LaidOut(p, b) {
      SerializedExactly(p, b);
      LoadOfSerialized(p);
    }
  }

  // ----- writers and readers -----

  /** The byte vector the writers append to. */
  class ByteVector {
    var bytes: seq<byte>

    constructor ()
      ensures bytes == []
    {
      bytes := [];
    }

    method PushBack(b: byte)
      modifies this
      ensures bytes == old(bytes) + [b]
    {
      bytes := bytes + [b];
    }
  }

  /** `x >> (8 * i)`. */
  function ShiftBytes(x: nat, i: nat): nat
    decreases i
  {
    if i == 0 then x else ShiftBytes(x / 0x100, i - 1)
  }

  /** Byte `i` of a word's little-endian form. */
  lemma {:induction false} ToLEAt(x: nat, n: nat, i: nat)
    requires i < n
    ensures ToLE(x, n)[i] == ShiftBytes(x, i) % 0x100
    decreases n
  {
    if i > 0 {
      ToLEAt(x / 0x100, n - 1, i - 1);
    }
  }

  method WriteU32Le(out: ByteVector, value: uint32)
    modifies out
    ensures out.bytes == old(out.bytes) + ToLE(value, 4)
  {
    ghost var before := out.bytes;
    out.PushBack(value % 0x100);
    out.PushBack(value / 0x100 % 0x100);
    out.PushBack(value / 0x1_0000 % 0x100);
    out.PushBack(value / 0x100_0000 % 0x100);
    LowBytes(value);
    assert out.bytes ==
           before + [value % 0x100, value / 0x100 % 0x100, value / 0x1_0000 % 0x100, value / 0x100_0000 % 0x100];
  }

  method WriteU64Le(out: ByteVector, value: uint64)
    modifies out
    ensures out.bytes == old(out.bytes) + ToLE(value, 8)
  {
    hide ToLE;
    for i := 0 to 8
      invariant out.bytes == old(out.bytes) + ToLE(value, 8)[..i]
    {
      ToLEAt(value, 8, i);
      out.PushBack(ShiftBytes(value, i) % 0x100);
      assert ToLE(value, 8)[..i + 1] == ToLE(value, 8)[..i] + [ToLE(value, 8)[i]];
    }
    assert ToLE(value, 8)[..8] == ToLE(value, 8);
  }

  /** Reads four bytes and moves the offset past them; fails at the end of the buffer. */
  method ReadU32Le(buffer: seq<byte>, offset: nat) returns (ok: bool, next: nat, value: uint32)
    ensures ok <==> offset + 4 <= |buffer|
    ensures ok ==> next == offset + 4 && value == WordAt(buffer, offset, 4)
  {
    if offset + 4 > |buffer| {
      return false, offset, 0;
    }
    FourBytes(buffer[offset..offset + 4]);
    LEBound(buffer[offset..offset + 4]); Pow256Values();
    var bs := buffer[offset..offset + 4];
    value := bs[0] as int + 0x100 * bs[1] as int + 0x1_0000 * bs[2] as int + 0x100_0000 * bs[3] as int;
    return true, offset + 4, value;
  }

  lemma FourBytes(bs: seq<byte>)
    requires |bs| >= 4
    ensures LE(bs) == bs[0] + 0x100 * bs[1] + 0x1_0000 * bs[2] + 0x100_0000 * bs[3] + 0x1_0000_0000 * LE(bs[4..])
  {
    assert LE(bs) == bs[0] + 0x100 * LE(bs[1..]);
    assert LE(bs[1..]) == bs[1] + 0x100 * LE(bs[2..]) by { assert bs[1..][1..] == bs[2..]; }
    assert LE(bs[2..]) == bs[2] + 0x100 * LE(bs[3..]) by { assert bs[2..][1..] == bs[3..]; }
    assert LE(bs[3..]) == bs[3] + 0x100 * LE(bs[4..]) by { assert bs[3..][1..] == bs[4..]; }
  }

  method ReadU64Le(buffer: seq<byte>, offset: nat) returns (ok: bool, next: nat, value: uint64)
    ensures ok <==> offset + 8 <= |buffer|
    ensures ok ==> next == offset + 8 && value == WordAt(buffer, offset, 8)
  {
    if offset + 8 > |buffer| {
      return false, offset, 0;
    }
    var bs := buffer[offset..offset + 8];
    FourBytes(bs);
    FourBytes(bs[4..]);
    LEBound(bs); Pow256Values();
    value := bs[0] as int + 0x100 * bs[1] as int + 0x1_0000 * bs[2] as int + 0x100_0000 * bs[3] as int
           + 0x1_0000_0000 * bs[4] as int + 0x100_0000_0000 * bs[5] as int
           + 0x1_0000_0000_0000 * bs[6] as int + 0x100_0000_0000_0000 * bs[7] as int;
    return true, offset + 8, value;
  }

  method ParseSerializedProgramHeader(buffer: seq<byte>) returns (header: Option<(uint32, uint32)>)
    ensures header == ParsedHeader(buffer)
  {
    if |buffer| < HEADER_SIZE {
      return None;
    }
    var ok, offset, magic := ReadU32Le(buffer, 0);
    var version, registerCount, instructionCount;
    ok, offset, version := ReadU32Le(buffer, offset);
    ok, offset, registerCount := ReadU32Le(buffer, offset);
    ok, offset, instructionCount := ReadU32Le(buffer, offset);
    if magic != BLOB_MAGIC || version != BLOB_VERSION {
      return None;
    }
    if registerCount > INT32_MAX {
      return None;
    }
    if HEADER_SIZE + 8 * instructionCount as int != |buffer| {
      return None;
    }
    return Some((registerCount, instructionCount));
  }

  lemma {:induction false} SlotsFromLast(b: seq<byte>, offset: nat, n: nat)
    requires n > 0 && offset + 8 * n <= |b|
    ensures SlotsFrom(b, offset, n) == SlotsFrom(b, offset, n - 1) + [SlotAt(b, offset + 8 * (n - 1))]
    decreases n
  {
    hide SlotAt;
    if n > 1 {
      SlotsFromLast(b, offset + 8, n - 1);
    }
  }

  /** Fills the instruction array from the bytes after the header. */
  method LoadSerializedInstructions(buffer: seq<byte>, out: array<Instruction>)
    requires |buffer| >= HEADER_SIZE + 8 * out.Length
    modifies out
    ensures out[..] == SlotsFrom(buffer, HEADER_SIZE, out.Length)
  {
    hide SlotsFrom;
    var offset := HEADER_SIZE;
    NoSlots(buffer);
    for i := 0 to out.Length
      invariant offset == HEADER_SIZE + 8 * i && out[..i] == SlotsFrom(buffer, HEADER_SIZE, i)
    {
      var ok, next, bits := ReadU64Le(buffer, offset);
      out[i] := FromBits(bits);
      SlotsFromLast(buffer, HEADER_SIZE, i + 1);
      assert out[..i + 1] == out[..i] + [out[i]];
      offset := next;
    }
    assert out[..out.Length] == out[..];
  }

  lemma NoSlots(b: seq<byte>)
    requires |b| >= HEADER_SIZE
    ensures SlotsFrom(b, HEADER_SIZE, 0) == []
  {
  }

  lemma {:induction false} SlotBytesLast(code: seq<Instruction>, i: Instruction)
    ensures SlotBytes(code + [i]) == SlotBytes(code) + ToLE(i.Bits(), 8)
  {
    hide ToLE;
    if code != [] {
      SlotBytesLast(code[1..], i);
      assert (code + [i])[1..] == code[1..] + [i];
    }
  }

  method SerializeProgram(p: Program) returns (blob: seq<byte>)
    requires 0 <= p.registerCount <= INT32_MAX && |p.code| <= UINT32_MAX
    ensures blob == Serialized(p) && LaidOut(p, blob)
  {
    hide ToLE, SlotBytes, LaidOut;
    SerializedIsLaidOut(p);
    var out := new ByteVector();
    WriteU32Le(out, BLOB_MAGIC);
    WriteU32Le(out, BLOB_VERSION);
    WriteU32Le(out, p.registerCount);
    WriteU32Le(out, |p.code|);
    ghost var header := out.bytes;
    assert SlotBytes([]) == [] by { NoSlotBytes(); }
    for i := 0 to |p.code|
      invariant out.bytes == header + SlotBytes(p.code[..i])
    {
      WriteU64Le(out, p.code[i].Bits());
      SlotBytesLast(p.code[..i], p.code[i]);
      assert p.code[..i + 1] == p.code[..i] + [p.code[i]];
    }
    assert p.code[..|p.code|] == p.code;
    blob := out.bytes;
  }

  lemma NoSlotBytes()
    ensures SlotBytes([]) == []
  {
  }
}
