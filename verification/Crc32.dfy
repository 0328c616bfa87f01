/** The CRC-32 of scripts/validate-brand-pngs.js, and what it detects.

    The reference is the textbook one: the message, least significant bit of each
    byte first, is divided over GF(2) by the generator of section 3.4 of RFC 2083,
    one bit at a time, in a register whose top bit holds the highest power of x.
    The script works on the mirror image of that register, and eight bits at a time.
 */
module Crc32 {

  type Byte = bv8
  type Bytes = seq<Byte>
  type Bits = seq<bool>

  // ----- the reference: polynomial division, highest power first -----

  /** x^26 + x^23 + x^22 + x^16 + x^12 + x^11 + x^10 + x^8 + x^7 + x^5 + x^4 + x^2 + x + 1,
      the generator without its leading x^32. */
  const GENERATOR: bv32 := 0x04C1_1DB7

  const ONES: bv32 := 0xFFFF_FFFF

  function DivideBit(remainder: bv32, bit: bool): bv32 {
    if (remainder & 0x8000_0000 != 0) != bit
    then (remainder << 1) ^ GENERATOR
    else remainder << 1
  }

  function Divide(remainder: bv32, message: Bits): bv32
    decreases |message|
  {
    if message == [] then remainder
    else Divide(DivideBit(remainder, message[0]), message[1..])
  }

  /** The same 32 bits in the opposite order. */
  function Mirror(x: bv32): bv32 {
    var a := ((x >> 1) & 0x5555_5555) ^ ((x & 0x5555_5555) << 1);
    var b := ((a >> 2) & 0x3333_3333) ^ ((a & 0x3333_3333) << 2);
    var c := ((b >> 4) & 0x0F0F_0F0F) ^ ((b & 0x0F0F_0F0F) << 4);
    var d := ((c >> 8) & 0x00FF_00FF) ^ ((c & 0x00FF_00FF) << 8);
    (d >> 16) ^ (d << 16)
  }

  /** The n lowest bits of a word, least significant first. */
  function LowBits(x: bv32, n: nat): (bits: Bits)
    ensures |bits| == n
    decreases n
  {
    if n == 0 then [] else [x & 1 != 0] + LowBits(x >> 1, n - 1)
  }

  function ByteBits(b: Byte): Bits { LowBits(b as bv32, 8) }

  function MessageBits(message: Bytes): (bits: Bits)
    ensures |bits| == 8 * |message|
  {
    if message == [] then [] else ByteBits(message[0]) + MessageBits(message[1..])
  }

  /** Preset to ones, divide, complement; the result is read mirrored. */
  function Crc(message: Bytes): bv32 {
    Mirror(Divide(ONES, MessageBits(message))) ^ ONES
  }

  // ----- the mirrored register, one bit at a time -----

  const POLYNOMIAL: bv32 := 0xEDB8_8320

  function Shift(crc: bv32): bv32 {
    if crc & 1 != 0 then POLYNOMIAL ^ (crc >> 1) else crc >> 1
  }

  function Shifts(crc: bv32, n: nat): bv32
    decreases n
  {
    if n == 0 then crc else Shifts(Shift(crc), n - 1)
  }

  function FeedBit(crc: bv32, bit: bool): bv32 {
    if (crc & 1 != 0) != bit then POLYNOMIAL ^ (crc >> 1) else crc >> 1
  }

  function Feed(crc: bv32, bits: Bits): bv32
    decreases |bits|
  {
    if bits == [] then crc else Feed(FeedBit(crc, bits[0]), bits[1..])
  }

  lemma MirrorXor(a: bv32, b: bv32)
    ensures Mirror(a ^ b) == Mirror(a) ^ Mirror(b)
  {}

  lemma MirrorShift(x: bv32)
    ensures Mirror(x >> 1) == Mirror(x) << 1
  {}

  lemma MirrorEnd(x: bv32)
    ensures (x & 1 != 0) <==> (Mirror(x) & 0x8000_0000 != 0)
  {}

  lemma MirrorMirror(x: bv32)
    ensures Mirror(Mirror(x)) == x
  {}

  lemma FeedBitDivides(crc: bv32, bit: bool)
    ensures Mirror(FeedBit(crc, bit)) == DivideBit(Mirror(crc), bit)
  {
    MirrorEnd(crc);
    MirrorShift(crc);
    MirrorXor(POLYNOMIAL, crc >> 1);
    assert Mirror(POLYNOMIAL) == GENERATOR;
  }

  lemma {:induction false} FeedDivides(crc: bv32, bits: Bits)
    ensures Mirror(Feed(crc, bits)) == Divide(Mirror(crc), bits)
    decreases |bits|
  {
    if bits != [] {
      FeedBitDivides(crc, bits[0]);
      FeedDivides(FeedBit(crc, bits[0]), bits[1..]);
    }
  }

  lemma CrcByFeeding(message: Bytes)
    ensures Crc(message) == Feed(ONES, MessageBits(message)) ^ ONES
  {
    var fed := Feed(ONES, MessageBits(message));
    FeedDivides(ONES, MessageBits(message));
    assert Mirror(ONES) == ONES;
    MirrorMirror(fed);
  }

  // ----- eight bits at a time, through a table -----

  function TableEntry(b: Byte): bv32 { Shifts(b as bv32, 8) }

  function Shr(x: bv32, n: nat): bv32
    decreases n
  {
    if n == 0 then x else Shr(x >> 1, n - 1)
  }

  ghost predicate IsXor(x: bv32, a: bv32, b: bv32) { x == a ^ b }

  ghost predicate LowClear(x: bv32, n: nat)
    decreases n
  {
    n == 0 || (x & 1 == 0 && LowClear(x >> 1, n - 1))
  }

  lemma ShiftSplit(x: bv32, low: bv32, high: bv32)
    requires x == low ^ high && high & 1 == 0
    ensures Shift(x) == Shift(low) ^ (high >> 1)
  {
    if low & 1 == 0 {} else {}
  }

  lemma ShiftHigh(x: bv32, low: bv32, high: bv32)
    requires IsXor(x, low, high) && high & 1 == 0
    ensures IsXor(Shift(x), Shift(low), high >> 1)
  {
    hide Shift;
    ShiftSplit(x, low, high);
  }

  lemma {:induction false} ShiftsHigh(x: bv32, low: bv32, high: bv32, n: nat)
    requires IsXor(x, low, high) && LowClear(high, n)
    ensures IsXor(Shifts(x, n), Shifts(low, n), Shr(high, n))
    decreases n
  {
    if n > 0 {
      ShiftHigh(x, low, high);
      ShiftsHigh(Shift(x), Shift(low), high >> 1, n - 1);
    }
  }

  lemma ShiftXor(x: bv32, crc: bv32, word: bv32)
    requires x == crc ^ word
    ensures Shift(x) == FeedBit(crc, word & 1 != 0) ^ (word >> 1)
  {
    if word & 1 == 0 {
      if crc & 1 == 0 {} else {}
    } else {
      if crc & 1 == 0 {} else {}
    }
  }

  lemma ShiftMessage(x: bv32, crc: bv32, word: bv32)
    requires IsXor(x, crc, word)
    ensures IsXor(Shift(x), FeedBit(crc, word & 1 != 0), word >> 1)
  {
    ShiftXor(x, crc, word);
  }

  /** Xoring n message bits in at once and shifting n times feeds them one by one. */
  lemma {:induction false} ShiftsMessage(x: bv32, crc: bv32, word: bv32, n: nat)
    requires IsXor(x, crc, word)
    ensures IsXor(Shifts(x, n), Feed(crc, LowBits(word, n)), Shr(word, n))
    decreases n
  {
    if n > 0 {
      ShiftMessage(x, crc, word);
      ShiftsMessage(Shift(x), FeedBit(crc, word & 1 != 0), word >> 1, n - 1);
      assert LowBits(word, n)[1..] == LowBits(word >> 1, n - 1);
    }
  }

  lemma ShrByte(x: bv32, n: nat)
    ensures Shr(x, n + 8) == Shr(x >> 8, n)
  {
    assert Shr(x, n + 8) == Shr(x >> 1, n + 7) == Shr((x >> 1) >> 1, n + 6);
    assert (x >> 1) >> 1 == x >> 2;
    assert Shr(x >> 2, n + 6) == Shr((x >> 2) >> 1, n + 5) == Shr(((x >> 2) >> 1) >> 1, n + 4);
    assert ((x >> 2) >> 1) >> 1 == x >> 4;
    assert Shr(x >> 4, n + 4) == Shr((x >> 4) >> 1, n + 3) == Shr(((x >> 4) >> 1) >> 1, n + 2);
    assert ((x >> 4) >> 1) >> 1 == x >> 6;
    assert Shr(x >> 6, n + 2) == Shr((x >> 6) >> 1, n + 1) == Shr(((x >> 6) >> 1) >> 1, n);
    assert ((x >> 6) >> 1) >> 1 == x >> 8;
  }

  lemma LowClearByte(x: bv32, n: nat)
    requires x & 0xFF == 0 && LowClear(x >> 8, n)
    ensures LowClear(x, n + 8)
  {
    assert (x >> 7) >> 1 == x >> 8 && (x >> 7) & 1 == 0 && LowClear(x >> 7, n + 1);
    assert (x >> 6) >> 1 == x >> 7 && (x >> 6) & 1 == 0 && LowClear(x >> 6, n + 2);
    assert (x >> 5) >> 1 == x >> 6 && (x >> 5) & 1 == 0 && LowClear(x >> 5, n + 3);
    assert (x >> 4) >> 1 == x >> 5 && (x >> 4) & 1 == 0 && LowClear(x >> 4, n + 4);
    assert (x >> 3) >> 1 == x >> 4 && (x >> 3) & 1 == 0 && LowClear(x >> 3, n + 5);
    assert (x >> 2) >> 1 == x >> 3 && (x >> 2) & 1 == 0 && LowClear(x >> 2, n + 6);
    assert (x >> 1) >> 1 == x >> 2 && (x >> 1) & 1 == 0 && LowClear(x >> 1, n + 7);
  }

  function LowByte(x: bv32): Byte { (x & 0xFF) as Byte }

  lemma SplitLow(x: bv32)
    ensures IsXor(x, LowByte(x) as bv32, x & 0xFFFF_FF00)
    ensures (x & 0xFFFF_FF00) & 0xFF == 0
    ensures (x & 0xFFFF_FF00) >> 8 == x >> 8
  {}

  lemma ByteShifted(b: Byte)
    ensures (b as bv32) >> 8 == 0
  {}

  lemma ByteFed(x: bv32, crc: bv32, b: Byte)
    requires IsXor(x, crc, b as bv32)
    ensures Shifts(x, 8) == Feed(crc, ByteBits(b))
  {
    ShiftsMessage(x, crc, b as bv32, 8);
    ShrByte(b as bv32, 0);
    ByteShifted(b);
    XorZero(Shifts(x, 8), Feed(crc, ByteBits(b)));
  }

  lemma HighClear(high: bv32)
    requires high & 0xFF == 0
    ensures LowClear(high, 8) && Shr(high, 8) == high >> 8
  {}

  lemma LowByteLookedUp(x: bv32)
    ensures IsXor(Shifts(x, 8), TableEntry(LowByte(x)), x >> 8)
  {
    SplitLow(x);
    HighClear(x & 0xFFFF_FF00);
    ShiftsHigh(x, LowByte(x) as bv32, x & 0xFFFF_FF00, 8);
  }

  lemma HighBytesKept(x: bv32, crc: bv32, b: Byte)
    requires IsXor(x, crc, b as bv32)
    ensures x >> 8 == crc >> 8
  {}

  /** One table lookup is eight single-bit steps. */
  lemma TableStep(x: bv32, crc: bv32, b: Byte)
    requires IsXor(x, crc, b as bv32)
    ensures IsXor(Feed(crc, ByteBits(b)), TableEntry(LowByte(x)), crc >> 8)
  {
    ByteFed(x, crc, b);
    LowByteLookedUp(x);
    HighBytesKept(x, crc, b);
  }

  lemma XorZero(x: bv32, a: bv32)
    requires IsXor(x, a, 0)
    ensures x == a
  {}

  ghost predicate IsCrcTable(table: seq<bv32>) {
    |table| == 256 && forall i :: 0 <= i < 256 ==> table[i] == TableEntry(i as Byte)
  }

  method BuildTable() returns (crcTable: array<bv32>)
    ensures fresh(crcTable) && IsCrcTable(crcTable[..])
  {
    crcTable := new bv32[256];
    for value := 0 to 256
      invariant forall i :: 0 <= i < value ==> crcTable[i] == TableEntry(i as Byte)
    {
      var entry := BuildEntry(value as Byte);
      crcTable[value] := entry;
    }
  }

  method BuildEntry(value: Byte) returns (crc: bv32)
    ensures crc == TableEntry(value)
  {
    crc := value as bv32;
    for bit := 0 to 8
      invariant Shifts(crc, 8 - bit) == TableEntry(value)
    {
      crc := if crc & 1 != 0 then 0xEDB8_8320 ^ (crc >> 1) else crc >> 1;
    }
  }

  lemma {:induction false} FeedAppend(crc: bv32, x: Bits, y: Bits)
    ensures Feed(crc, x + y) == Feed(Feed(crc, x), y)
    decreases |x|
  {
    if x == [] {
      assert x + y == y;
    } else {
      assert (x + y)[0] == x[0] && (x + y)[1..] == x[1..] + y;
      FeedAppend(FeedBit(crc, x[0]), x[1..], y);
    }
  }

  lemma {:induction false} MessageBitsAppend(x: Bytes, y: Bytes)
    ensures MessageBits(x + y) == MessageBits(x) + MessageBits(y)
    decreases |x|
  {
    if x == [] {
      assert x + y == y;
    } else {
      assert (x + y)[0] == x[0] && (x + y)[1..] == x[1..] + y;
      MessageBitsAppend(x[1..], y);
    }
  }

  lemma FeedByte(crc: bv32, buffer: Bytes, i: nat)
    requires i < |buffer|
    ensures Feed(crc, MessageBits(buffer[..i + 1])) == Feed(Feed(crc, MessageBits(buffer[..i])), ByteBits(buffer[i]))
  {
    var b := [buffer[i]];
    assert buffer[..i + 1] == buffer[..i] + b;
    MessageBitsAppend(buffer[..i], b);
    assert b[1..] == [];
    assert MessageBits(b) == ByteBits(buffer[i]) + [];
    assert ByteBits(buffer[i]) + [] == ByteBits(buffer[i]);
    FeedAppend(crc, MessageBits(buffer[..i]), ByteBits(buffer[i]));
  }

  method LookUp(crcTable: array<bv32>, index: Byte) returns (entry: bv32)
    requires IsCrcTable(crcTable[..])
    ensures entry == TableEntry(index)
  {
    hide TableEntry;
    assert crcTable[..][index as int] == TableEntry(index);
    entry := crcTable[index as int];
  }

  lemma IsXorOf(a: bv32, b: bv32)
    ensures IsXor(a ^ b, a, b)
  {}

  lemma XorIs(x: bv32, a: bv32, b: bv32)
    requires IsXor(x, a, b)
    ensures x == a ^ b
  {}

  lemma TableStepIs(crc: bv32, b: Byte)
    ensures Feed(crc, ByteBits(b)) == TableEntry(LowByte(crc ^ (b as bv32))) ^ (crc >> 8)
  {
    hide IsXor, Feed, ByteBits, TableEntry, LowByte;
    IsXorOf(crc, b as bv32);
    TableStep(crc ^ (b as bv32), crc, b);
    XorIs(Feed(crc, ByteBits(b)), TableEntry(LowByte(crc ^ (b as bv32))), crc >> 8);
  }

  method UpdateCrc(crcTable: array<bv32>, crc: bv32, b: Byte) returns (next: bv32)
    requires IsCrcTable(crcTable[..])
    ensures next == Feed(crc, ByteBits(b))
  {
    hide IsCrcTable, Feed, ByteBits, TableEntry, LowByte;
    TableStepIs(crc, b);
    var entry := LookUp(crcTable, LowByte(crc ^ (b as bv32)));
    next := entry ^ (crc >> 8);
  }

  /** The table-driven loop computes the polynomial remainder. */
  method ComputeCrc(crcTable: array<bv32>, buffer: Bytes) returns (result: bv32)
    requires IsCrcTable(crcTable[..])
    ensures result == Crc(buffer)
  {
    var crc := 0xFFFF_FFFF;
    for i := 0 to |buffer|
      invariant crc == Feed(ONES, MessageBits(buffer[..i]))
    {
      FeedByte(ONES, buffer, i);
      crc := UpdateCrc(crcTable, crc, buffer[i]);
    }
    assert buffer[..|buffer|] == buffer;
    CrcByFeeding(buffer);
    result := crc ^ 0xFFFF_FFFF;
  }

  // ----- preset and complement, section 3.4 of RFC 2083 -----

  lemma SameLowByte(x: bv32, y: bv32, c: bv32, d: bv32, b: Byte, mark: bv32)
    requires IsXor(x, c, b as bv32) && IsXor(y, d, (b ^ 0xFF) as bv32) && IsXor(c, d, mark) && mark & 0xFF == 0xFF
    ensures LowByte(x) == LowByte(y)
    ensures IsXor(c >> 8, d >> 8, mark >> 8)
  {}

  lemma XorCommon(p: bv32, q: bv32, t: bv32, c: bv32, d: bv32, mark: bv32)
    requires IsXor(p, t, c) && IsXor(q, t, d) && IsXor(c, d, mark)
    ensures IsXor(p, q, mark)
  {}

  /** Ones in the low byte of the register and complementing the next byte are the same. */
  lemma ComplementByte(c: bv32, d: bv32, mark: bv32, b: Byte)
    requires IsXor(c, d, mark) && mark & 0xFF == 0xFF
    ensures IsXor(Feed(c, ByteBits(b)), Feed(d, ByteBits(b ^ 0xFF)), mark >> 8)
  {
    hide Feed, ByteBits, TableEntry, LowByte;
    ComplementStep(c ^ (b as bv32), d ^ ((b ^ 0xFF) as bv32), c, d, mark, b, b ^ 0xFF);
  }

  lemma ComplementStep(x: bv32, y: bv32, c: bv32, d: bv32, mark: bv32, b: Byte, b': Byte)
    requires IsXor(x, c, b as bv32) && IsXor(y, d, b' as bv32) && IsXor(c, d, mark)
    requires b' == b ^ 0xFF && mark & 0xFF == 0xFF
    ensures IsXor(Feed(c, ByteBits(b)), Feed(d, ByteBits(b')), mark >> 8)
  {
    SameLowByte(x, y, c, d, b, mark);
    hide *;
    TableStep(x, c, b);
    TableStep(y, d, b');
    XorCommon(Feed(c, ByteBits(b)), Feed(d, ByteBits(b')), TableEntry(LowByte(x)), c >> 8, d >> 8, mark >> 8);
  }

  lemma FirstByte(crc: bv32, message: Bytes)
    requires message != []
    ensures Feed(crc, MessageBits(message)) == Feed(Feed(crc, ByteBits(message[0])), MessageBits(message[1..]))
  {
    FeedAppend(crc, ByteBits(message[0]), MessageBits(message[1..]));
  }

  function ComplementFirst(message: Bytes, n: nat): (r: Bytes)
    requires n <= |message|
    ensures |r| == |message|
    ensures forall i :: 0 <= i < |message| ==> r[i] == if i < n then message[i] ^ 0xFF else message[i]
  {
    if n == 0 then message else [message[0] ^ 0xFF] + ComplementFirst(message[1..], n - 1)
  }

  /** The low n bytes of a register are all ones, the others zero. */
  ghost predicate LowBytesSet(mark: bv32, n: nat)
    decreases n
  {
    if n == 0 then mark == 0 else mark & 0xFF == 0xFF && LowBytesSet(mark >> 8, n - 1)
  }

  lemma {:induction false} ComplementBytes(c: bv32, d: bv32, mark: bv32, message: Bytes, n: nat)
    requires n <= |message| && IsXor(c, d, mark) && LowBytesSet(mark, n)
    ensures Feed(c, MessageBits(message)) == Feed(d, MessageBits(ComplementFirst(message, n)))
    decreases n
  {
    hide Feed, ByteBits;
    if n == 0 {
      XorZero(c, d);
    } else {
      var other := ComplementFirst(message, n);
      assert other[1..] == ComplementFirst(message[1..], n - 1);
      hide MessageBits, IsXor, ComplementFirst;
      ComplementByte(c, d, mark, message[0]);
      FirstByte(c, message);
      FirstByte(d, other);
      ComplementBytes(Feed(c, ByteBits(message[0])), Feed(d, ByteBits(other[0])), mark >> 8, message[1..], n - 1);
    }
  }

  lemma AllBytesSet()
    ensures LowBytesSet(0xFFFF_FFFF, 4) && IsXor(0xFFFF_FFFF, 0, 0xFFFF_FFFF) && Mirror(0) == 0
  {
    var m: bv32 := 0xFFFF_FFFF;
    assert m >> 8 == 0xFF_FFFF && (m >> 8) >> 8 == 0xFFFF && ((m >> 8) >> 8) >> 8 == 0xFF;
    assert LowBytesSet(0, 0) && LowBytesSet(0xFF, 1) && LowBytesSet(0xFFFF, 2) && LowBytesSet(0xFF_FFFF, 3);
  }

  /** Presetting the register to ones is dividing, from an empty register, the message with
      its first four bytes complemented; the remainder is complemented as well. */
  lemma PresetAndComplement(message: Bytes)
    requires |message| >= 4
    ensures var complemented := [message[0] ^ 0xFF, message[1] ^ 0xFF, message[2] ^ 0xFF, message[3] ^ 0xFF] + message[4..];
            Crc(message) == Mirror(Divide(0, MessageBits(complemented))) ^ 0xFFFF_FFFF
  {
    hide Mirror, MessageBits;
    var complemented := [message[0] ^ 0xFF, message[1] ^ 0xFF, message[2] ^ 0xFF, message[3] ^ 0xFF] + message[4..];
    assert complemented == ComplementFirst(message, 4);
    AllBytesSet();
    CrcByFeeding(message);
    ComplementBytes(0xFFFF_FFFF, 0, 0xFFFF_FFFF, message, 4);
    FeedDivides(0, MessageBits(complemented));
    MirrorMirror(Feed(0, MessageBits(complemented)));
  }

  // ----- two checksums that every accepted file contains -----

  ghost predicate ByteStep(crc: bv32, b: Byte, next: bv32) { Feed(crc, ByteBits(b)) == next }

  ghost predicate Leaves(crc: bv32, message: Bytes, next: bv32) { Feed(crc, MessageBits(message)) == next }

  lemma OneByte(crc: bv32, b: Byte, next: bv32)
    requires ByteStep(crc, b, next)
    ensures Leaves(crc, [b], next)
  {
    FirstByte(crc, [b]);
  }

  lemma BothLeave(crc: bv32, x: Bytes, middle: bv32, y: Bytes, next: bv32)
    requires Leaves(crc, x, middle) && Leaves(middle, y, next)
    ensures Leaves(crc, x + y, next)
  {
    MessageBitsAppend(x, y);
    FeedAppend(crc, MessageBits(x), MessageBits(y));
  }

  lemma FourBytes(c0: bv32, b0: Byte, c1: bv32, b1: Byte, c2: bv32, b2: Byte, c3: bv32, b3: Byte, c4: bv32)
    requires ByteStep(c0, b0, c1) && ByteStep(c1, b1, c2) && ByteStep(c2, b2, c3) && ByteStep(c3, b3, c4)
    ensures Leaves(c0, [b0, b1, b2, b3], c4)
  {
    hide ByteStep, Leaves;
    OneByte(c0, b0, c1);
    OneByte(c1, b1, c2);
    OneByte(c2, b2, c3);
    OneByte(c3, b3, c4);
    BothLeave(c0, [b0], c1, [b1], c2);
    BothLeave(c2, [b2], c3, [b3], c4);
    BothLeave(c0, [b0] + [b1], c2, [b2] + [b3], c4);
    assert [b0, b1, b2, b3] == [b0] + [b1] + ([b2] + [b3]);
  }

  lemma IendRead()
    ensures Leaves(0xFFFF_FFFF, [73, 69, 78, 68], 0x51BD_9F7D)
  {
    FourBytes(0xFFFF_FFFF, 73, 0x22FD_E946, 69, 0x992B_AC53, 78, 0x639F_4775, 68, 0x51BD_9F7D);
  }

  lemma IhdrRead()
    ensures Leaves(0xFFFF_FFFF, [73, 72, 68, 82], 0x575E_51F5)
  {
    FourBytes(0xFFFF_FFFF, 73, 0x22FD_E946, 72, 0xE79A_D0EE, 68, 0x36E4_D026, 82, 0x575E_51F5);
  }

  lemma WidthRead()
    ensures Leaves(0x575E_51F5, [0, 0, 1, 0], 0x14EA_27DE)
  {
    FourBytes(0x575E_51F5, 0, 0xCD80_58C2, 0, 0x75A7_23C4, 1, 0xEB7B_911C, 0, 0x14EA_27DE);
  }

  lemma HeightRead()
    ensures Leaves(0x14EA_27DE, [0, 0, 1, 0], 0x5CD9_6095)
  {
    FourBytes(0x14EA_27DE, 0, 0x617F_15F4, 0, 0xBAB1_4910, 1, 0x6A0A_91BB, 0, 0x5CD9_6095);
  }

  lemma FormatRead()
    ensures Leaves(0x5CD9_6095, [4, 3, 0, 0], 0x7D4A_9031)
  {
    FourBytes(0x5CD9_6095, 4, 0x8754_7AB2, 3, 0xBCE1_D760, 0, 0x4D0E_808F, 0, 0x7D4A_9031);
  }

  lemma InterlaceRead()
    ensures Leaves(0x7D4A_9031, [0], 0x51A3_4AAA)
  {
    OneByte(0x7D4A_9031, 0, 0x51A3_4AAA);
  }

  lemma CrcFromLeaves(message: Bytes, last: bv32)
    requires Leaves(0xFFFF_FFFF, message, last)
    ensures Crc(message) == last ^ 0xFFFF_FFFF
  {
    CrcByFeeding(message);
  }

  /** The check value of the empty IEND chunk that every PNG file ends with. */
  lemma IendChecksum()
    ensures Crc([73, 69, 78, 68]) == 0xAE42_6082
  {
    IendRead();
    CrcFromLeaves([73, 69, 78, 68], 0x51BD_9F7D);
  }

  /** The check value of the one header that a canonical image has. */
  lemma IhdrChecksum()
    ensures Crc([73, 72, 68, 82, 0, 0, 1, 0, 0, 0, 1, 0, 4, 3, 0, 0, 0]) == 0xAE5C_B555
  {
    hide Leaves, Crc;
    IhdrRead();
    WidthRead();
    HeightRead();
    FormatRead();
    InterlaceRead();
    var (kind, size, format, last) := ([73, 72, 68, 82], [0, 0, 1, 0], [4, 3, 0, 0], [0]);
    BothLeave(0xFFFF_FFFF, kind, 0x575E_51F5, size, 0x14EA_27DE);
    BothLeave(0xFFFF_FFFF, kind + size, 0x14EA_27DE, size, 0x5CD9_6095);
    BothLeave(0xFFFF_FFFF, kind + size + size, 0x5CD9_6095, format, 0x7D4A_9031);
    BothLeave(0xFFFF_FFFF, kind + size + size + format, 0x7D4A_9031, last, 0x51A3_4AAA);
    var message: Bytes := kind + size + size + format + last;
    assert message == [73, 72, 68, 82, 0, 0, 1, 0, 0, 0, 1, 0, 4, 3, 0, 0, 0];
    CrcFromLeaves(message, 0x51A3_4AAA);
  }

  // ----- what the checksum detects -----

  lemma FeedBitInjective(c: bv32, d: bv32, bit: bool)
    requires FeedBit(c, bit) == FeedBit(d, bit)
    ensures c == d
  {}

  lemma {:induction false} FeedInjective(c: bv32, d: bv32, bits: Bits)
    requires c != d
    ensures Feed(c, bits) != Feed(d, bits)
    decreases |bits|
  {
    if bits != [] {
      if FeedBit(c, bits[0]) == FeedBit(d, bits[0]) {
        FeedBitInjective(c, d, bits[0]);
      }
      FeedInjective(FeedBit(c, bits[0]), FeedBit(d, bits[0]), bits[1..]);
    }
  }

  /** `mark` can be halved n times without a remainder and without reaching 0. */
  ghost predicate Halvable(mark: bv32, n: nat) {
    LowClear(mark, n) && Shr(mark, n) != 0
  }

  lemma {:induction false} HalvableLess(mark: bv32, n: nat)
    requires Halvable(mark, n + 1)
    ensures Halvable(mark, n)
    decreases n
  {
    if n > 0 {
      HalvableLess(mark >> 1, n - 1);
    }
  }

  lemma HalvableByte(mark: bv32, n: nat)
    requires mark & 0xFF == 0 && Halvable(mark >> 8, n)
    ensures Halvable(mark, n + 8)
  {
    LowClearByte(mark, n);
    ShrByte(mark, n);
  }

  const TOP: bv32 := 0x8000_0000

  lemma TopHalvable(n: nat)
    requires n <= 31
    ensures Halvable(TOP, n)
    decreases 31 - n
  {
    if n < 31 {
      TopHalvable(n + 1);
      HalvableLess(TOP, n);
    } else {
      assert TOP >> 8 == 0x80_0000 && (TOP >> 8) >> 8 == 0x8000 && ((TOP >> 8) >> 8) >> 8 == 0x80;
      assert Halvable(0x80, 7) by {
        assert Halvable(0x01, 0) && Halvable(0x02, 1) && Halvable(0x04, 2) && Halvable(0x08, 3);
        assert Halvable(0x10, 4) && Halvable(0x20, 5) && Halvable(0x40, 6);
      }
      HalvableByte(0x8000, 7);
      HalvableByte(0x80_0000, 15);
      HalvableByte(TOP, 23);
    }
  }

  /** The difference of two registers, as a number, is at least `mark`. */
  ghost predicate DifferBy(mark: bv32, c: bv32, d: bv32) { mark <= c ^ d }

  lemma NonzeroDiffers(c: bv32, d: bv32, mark: bv32)
    requires DifferBy(mark, c, d) && mark != 0
    ensures c != d
  {}

  lemma XorHalves(c: bv32, d: bv32, mark: bv32, x: bool, y: bool)
    requires mark & 1 == 0 && mark <= c ^ d
    ensures mark >> 1 <= FeedBit(c, x) ^ FeedBit(d, y)
  {
    if x {
      if y {} else {}
    } else {
      if y {} else {}
    }
  }

  lemma FeedDifference(c: bv32, d: bv32, mark: bv32, x: bool, y: bool)
    requires mark & 1 == 0 && DifferBy(mark, c, d)
    ensures DifferBy(mark >> 1, FeedBit(c, x), FeedBit(d, y))
  {
    hide FeedBit;
    XorHalves(c, d, mark, x, y);
  }

  /** Registers that differ high up stay different, whatever the next few bits are. */
  lemma {:induction false} DifferenceSurvives(c: bv32, d: bv32, mark: bv32, x: Bits, y: Bits)
    requires |x| == |y| && Halvable(mark, |x|) && DifferBy(mark, c, d)
    ensures Feed(c, x) != Feed(d, y)
    decreases |x|
  {
    hide DifferBy, FeedBit;
    if x == [] {
      NonzeroDiffers(c, d, mark);
    } else {
      FeedDifference(c, d, mark, x[0], y[0]);
      DifferenceSurvives(FeedBit(c, x[0]), FeedBit(d, y[0]), mark >> 1, x[1..], y[1..]);
    }
  }

  /** Two different bit strings of at most 32 bits never leave the same register. */
  lemma {:induction false} ShortBitsDetected(crc: bv32, x: Bits, y: Bits)
    requires |x| == |y| <= 32 && x != y
    ensures Feed(crc, x) != Feed(crc, y)
    decreases |x|
  {
    if x[0] == y[0] {
      assert x == [x[0]] + x[1..] && y == [y[0]] + y[1..];
      ShortBitsDetected(FeedBit(crc, x[0]), x[1..], y[1..]);
    } else {
      var c, d := FeedBit(crc, x[0]), FeedBit(crc, y[0]);
      assert DifferBy(TOP, c, d);
      TopHalvable(|x| - 1);
      DifferenceSurvives(c, d, TOP, x[1..], y[1..]);
    }
  }

  /** The bits of a and b agree outside some window of 32 consecutive bits. */
  ghost predicate DifferInBurst(a: Bytes, b: Bytes) {
    |a| == |b| && exists start: nat :: BurstAt(MessageBits(a), MessageBits(b), start)
  }

  ghost predicate BurstAt(x: Bits, y: Bits, start: nat) {
    |x| == |y| && start <= |x| && x[..start] == y[..start] && x[BurstEnd(x, start)..] == y[BurstEnd(x, start)..]
  }

  ghost function BurstEnd(x: Bits, start: nat): (end: nat)
    requires start <= |x|
    ensures start <= end <= |x| && end <= start + 32
  {
    if start + 32 <= |x| then start + 32 else |x|
  }

  lemma BitsBurstDetected(crc: bv32, x: Bits, y: Bits, start: nat)
    requires BurstAt(x, y, start) && x != y
    ensures Feed(crc, x) != Feed(crc, y)
  {
    var end := BurstEnd(x, start);
    var before, after := x[..start], x[end..];
    var s, t := x[start..end], y[start..end];
    assert x == before + s + after && y == before + t + after;
    assert s != t;
    FeedAppend(crc, before + s, after);
    FeedAppend(crc, before, s);
    FeedAppend(crc, before + t, after);
    FeedAppend(crc, before, t);
    ShortBitsDetected(Feed(crc, before), s, t);
    FeedInjective(Feed(crc, before + s), Feed(crc, before + t), after);
  }

  predicate IsOdd(x: bv32) { x & 1 != 0 }

  function Half(x: bv32): bv32 { x >> 1 }

  lemma FirstBit(x: bv32, n: nat)
    requires n > 0
    ensures LowBits(x, n) == [IsOdd(x)] + LowBits(Half(x), n - 1) && Shr(x, n) == Shr(Half(x), n - 1)
  {}

  lemma HalvesInjective(x: bv32, y: bv32)
    requires Half(x) == Half(y) && IsOdd(x) == IsOdd(y)
    ensures x == y
  {}

  lemma {:induction false} LowBitsInjective(x: bv32, y: bv32, n: nat)
    requires LowBits(x, n) == LowBits(y, n) && Shr(x, n) == Shr(y, n)
    ensures x == y
    decreases n
  {
    if n > 0 {
      hide LowBits, Shr, Half, IsOdd;
      FirstBit(x, n);
      FirstBit(y, n);
      assert LowBits(x, n)[0] == LowBits(y, n)[0] && LowBits(x, n)[1..] == LowBits(y, n)[1..];
      LowBitsInjective(Half(x), Half(y), n - 1);
      HalvesInjective(x, y);
    }
  }

  lemma ByteBitsInjective(a: Byte, b: Byte)
    requires ByteBits(a) == ByteBits(b)
    ensures a == b
  {
    var x, y := a as bv32, b as bv32;
    ShrByte(x, 0);
    ShrByte(y, 0);
    assert x >> 8 == 0 == y >> 8;
    LowBitsInjective(x, y, 8);
  }

  lemma {:induction false} MessageBitsInjective(a: Bytes, b: Bytes)
    requires |a| == |b| && MessageBits(a) == MessageBits(b)
    ensures a == b
    decreases |a|
  {
    if a != [] {
      var p, q := MessageBits(a), MessageBits(b);
      assert p[..8] == ByteBits(a[0]) && q[..8] == ByteBits(b[0]);
      assert p[8..] == MessageBits(a[1..]) && q[8..] == MessageBits(b[1..]);
      ByteBitsInjective(a[0], b[0]);
      MessageBitsInjective(a[1..], b[1..]);
      assert a == [a[0]] + a[1..] && b == [b[0]] + b[1..];
    }
  }

  /** Every burst error of at most 32 bits changes the checksum. */
  lemma BurstDetected(a: Bytes, b: Bytes)
    requires DifferInBurst(a, b) && a != b
    ensures Crc(a) != Crc(b)
  {
    var x, y := MessageBits(a), MessageBits(b);
    if x == y {
      MessageBitsInjective(a, b);
    }
    var start: nat :| BurstAt(x, y, start);
    BitsBurstDetected(ONES, x, y, start);
    CrcByFeeding(a);
    CrcByFeeding(b);
    XorOnesInjective(Feed(ONES, x), Feed(ONES, y));
  }

  lemma XorOnesInjective(c: bv32, d: bv32)
    requires c != d
    ensures c ^ ONES != d ^ ONES
  {}

  /** In particular, changes confined to four consecutive bytes are detected. */
  lemma FourByteSpanDetected(before: Bytes, x: Bytes, y: Bytes, after: Bytes)
    requires |x| == |y| <= 4 && x != y
    ensures Crc(before + x + after) != Crc(before + y + after)
  {
    var a, b := before + x + after, before + y + after;
    SpanBits(before, x, after);
    SpanBits(before, y, after);
    SpanIsBurst(MessageBits(before), MessageBits(x), MessageBits(y), MessageBits(after));
    assert a[|before|..|before| + |x|] == x && b[|before|..|before| + |x|] == y;
    BurstDetected(a, b);
  }

  lemma SpanBits(before: Bytes, x: Bytes, after: Bytes)
    ensures MessageBits(before + x + after) == MessageBits(before) + MessageBits(x) + MessageBits(after)
  {
    MessageBitsAppend(before + x, after);
    MessageBitsAppend(before, x);
  }

  lemma SpanIsBurst(before: Bits, x: Bits, y: Bits, after: Bits)
    requires |x| == |y| <= 32
    ensures BurstAt(before + x + after, before + y + after, |before|)
  {}

  /** 32 is the limit: 33 bits that differ by exactly the generator go unnoticed. */
  lemma LongerBurstMissed(crc: bv32, after: Bits)
    ensures Feed(crc, [true] + LowBits(POLYNOMIAL, 32) + after) == Feed(crc, [false] + LowBits(0, 32) + after)
  {
    FirstBitDiffers(crc);
    var x, y := LowBits(POLYNOMIAL, 32), LowBits(0, 32);
    WordFed(FeedBit(crc, false), FeedBit(crc, true), POLYNOMIAL);
    WordFed(FeedBit(crc, false), FeedBit(crc, false), 0);
    assert ([true] + x)[1..] == x && ([false] + y)[1..] == y;
    FeedAppend(crc, [true] + x, after);
    FeedAppend(crc, [false] + y, after);
  }

  lemma FirstBitXor(crc: bv32)
    ensures FeedBit(crc, false) == FeedBit(crc, true) ^ POLYNOMIAL
  {
    if crc & 1 == 0 {} else {}
  }

  lemma FirstBitDiffers(crc: bv32)
    ensures IsXor(FeedBit(crc, false), FeedBit(crc, true), POLYNOMIAL)
    ensures IsXor(FeedBit(crc, false), FeedBit(crc, false), 0)
  {
    hide FeedBit;
    FirstBitXor(crc);
  }

  lemma WordFed(x: bv32, crc: bv32, word: bv32)
    requires IsXor(x, crc, word)
    ensures Shifts(x, 32) == Feed(crc, LowBits(word, 32))
  {
    ShiftsMessage(x, crc, word, 32);
    ShrWord(word);
    XorZero(Shifts(x, 32), Feed(crc, LowBits(word, 32)));
  }

  lemma ShrWord(x: bv32)
    ensures Shr(x, 32) == 0
  {
    ShrByte(x, 24);
    ShrByte(x >> 8, 16);
    ShrByte((x >> 8) >> 8, 8);
    ShrByte(((x >> 8) >> 8) >> 8, 0);
    assert (((x >> 8) >> 8) >> 8) >> 8 == 0;
  }
}
