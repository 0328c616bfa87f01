/** The structural part of scripts/validate-brand-pngs.js: chunks, their checksums,
    and the one chunk grammar a canonical brand PNG may have. */
module Png {
  import opened Crc32

  datatype Result<+T> = Ok(value: T) | Err(error: Error)

  datatype Error =
    | BadSignature
    | TruncatedChunk
    | InvalidType
    | ReservedBit
    | TruncatedData(kind: Bytes)
    | BadCrc(kind: Bytes)
    | UnexpectedChunk(expected: Bytes, found: Bytes)
    | InvalidLength(kind: Bytes, length: nat)
    | NotCanonical
    | InvalidIendLength
    | MissingIdat
    | TrailingBytes
    | ExpectedIdatOrIend(found: Bytes)
    | MissingIend

  const SIGNATURE: Bytes := [137, 80, 78, 71, 13, 10, 26, 10]
  const WIDTH := 256
  const HEIGHT := 256
  const BIT_DEPTH: Byte := 4
  const COLOR_TYPE: Byte := 3
  const PALETTE_BYTES := 48
  const TRANSPARENCY_BYTES := 16

  const IHDR: Bytes := [73, 72, 68, 82]
  const PLTE: Bytes := [80, 76, 84, 69]
  const TRNS: Bytes := [116, 82, 78, 83]
  const IDAT: Bytes := [73, 68, 65, 84]
  const IEND: Bytes := [73, 69, 78, 68]

  // ----- 32-bit big-endian numbers -----

  const UINT32_LIMIT := 0x1_0000_0000

  function Value(b: Byte): (n: nat)
    ensures n < 256
  {
    b as int
  }

  function ByteOf(n: nat): Byte
    requires n < 256
  {
    n as Byte
  }

  function FromDigits(d0: nat, d1: nat, d2: nat, d3: nat): (n: nat)
    requires d0 < 256 && d1 < 256 && d2 < 256 && d3 < 256
    ensures n < UINT32_LIMIT
  {
    ((d0 * 256 + d1) * 256 + d2) * 256 + d3
  }

  function ReadUInt32BE(b: Bytes): (n: nat)
    requires |b| == 4
    ensures n < UINT32_LIMIT
  {
    FromDigits(Value(b[0]), Value(b[1]), Value(b[2]), Value(b[3]))
  }

  function UInt32Bytes(n: nat): (b: Bytes)
    requires n < UINT32_LIMIT
    ensures |b| == 4
  {
    [ByteOf(n / 0x100_0000), ByteOf(n / 0x1_0000 % 256), ByteOf(n / 256 % 256), ByteOf(n % 256)]
  }

  lemma ByteOfValue(b: Byte)
    ensures ByteOf(Value(b)) == b
  {}

  lemma NextByte(b: Byte)
    requires Value(b) < 255
    ensures Value(b + 1) == Value(b) + 1
  {}

  lemma {:induction false} ValueOfByte(n: nat)
    requires n < 256
    ensures Value(ByteOf(n)) == n
    decreases n
  {
    if n != 0 {
      hide Value, ByteOf;
      ValueOfByte(n - 1);
      NextByte(ByteOf(n - 1));
      ByteOfValue(ByteOf(n - 1) + 1);
    }
  }

  lemma ReadWritten(n: nat)
    requires n < UINT32_LIMIT
    ensures ReadUInt32BE(UInt32Bytes(n)) == n
  {
    hide Value, ByteOf;
    ValueOfByte(n / 0x100_0000);
    ValueOfByte(n / 0x1_0000 % 256);
    ValueOfByte(n / 256 % 256);
    ValueOfByte(n % 256);
    DigitsWritten(n);
  }

  lemma DigitsWritten(n: nat)
    requires n < UINT32_LIMIT
    ensures FromDigits(n / 0x100_0000, n / 0x1_0000 % 256, n / 256 % 256, n % 256) == n
  {
    assert n == n / 256 * 256 + n % 256;
    assert n / 256 == n / 0x1_0000 * 256 + n / 256 % 256;
    assert n / 0x1_0000 == n / 0x100_0000 * 256 + n / 0x1_0000 % 256;
  }

  lemma DigitsRead(b0: nat, b1: nat, b2: nat, b3: nat)
    requires b0 < 256 && b1 < 256 && b2 < 256 && b3 < 256
    ensures var n := FromDigits(b0, b1, b2, b3);
            n / 0x100_0000 == b0 && n / 0x1_0000 % 256 == b1 && n / 256 % 256 == b2 && n % 256 == b3
  {
    var n := FromDigits(b0, b1, b2, b3);
    assert n / 256 == (b0 * 256 + b1) * 256 + b2;
    assert n / 0x1_0000 == b0 * 256 + b1;
  }

  lemma WrittenRead(b: Bytes)
    requires |b| == 4
    ensures UInt32Bytes(ReadUInt32BE(b)) == b
  {
    hide Value, ByteOf;
    DigitsRead(Value(b[0]), Value(b[1]), Value(b[2]), Value(b[3]));
    ByteOfValue(b[0]);
    ByteOfValue(b[1]);
    ByteOfValue(b[2]);
    ByteOfValue(b[3]);
  }

  lemma ReadInjective(a: Bytes, b: Bytes)
    requires |a| == 4 == |b| && ReadUInt32BE(a) == ReadUInt32BE(b)
    ensures a == b
  {
    hide ReadUInt32BE, UInt32Bytes;
    WrittenRead(a);
    WrittenRead(b);
  }

  /** The four bytes of a 32-bit register, most significant first. */
  function RegisterBytes(c: bv32): (b: Bytes)
    ensures |b| == 4
  {
    [(c >> 24) as Byte, ((c >> 16) & 0xFF) as Byte, ((c >> 8) & 0xFF) as Byte, (c & 0xFF) as Byte]
  }

  /** A register as the unsigned number JavaScript makes of it. */
  function RegisterNumber(c: bv32): nat { ReadUInt32BE(RegisterBytes(c)) }

  lemma RegisterBytesInjective(c: bv32, d: bv32)
    requires RegisterBytes(c) == RegisterBytes(d)
    ensures c == d
  {
    JoinedRegister(c, RegisterBytes(c));
    JoinedRegister(d, RegisterBytes(d));
  }

  lemma JoinedRegister(c: bv32, b: Bytes)
    requires b == RegisterBytes(c)
    ensures c == ((b[0] as bv32) << 24) | ((b[1] as bv32) << 16) | ((b[2] as bv32) << 8) | (b[3] as bv32)
  {}

  lemma RegisterNumberInjective(c: bv32, d: bv32)
    requires RegisterNumber(c) == RegisterNumber(d)
    ensures c == d
  {
    ReadInjective(RegisterBytes(c), RegisterBytes(d));
    RegisterBytesInjective(c, d);
  }

  // ----- chunks -----

  datatype Chunk = Chunk(kind: Bytes, data: Bytes)
  {
    ghost predicate WellFormed() {
      && |kind| == 4
      && (forall i :: 0 <= i < 4 ==> 65 <= kind[i] <= 90 || 97 <= kind[i] <= 122)
      && !(97 <= kind[2] <= 122)
      && |data| < UINT32_LIMIT
    }
  }

  predicate IsAsciiLetter(b: Byte) {
    (65 <= b <= 90) || (97 <= b <= 122)
  }

  /** The chunk at an offset, and the offset behind it. */
  function ReadChunk(png: Bytes, offset: nat): (r: Result<(Chunk, nat)>)
    ensures r.Ok? ==> offset + 12 <= r.value.1 <= |png|
  {
    if offset + 12 > |png| then Err(TruncatedChunk) else
    var length := ReadUInt32BE(png[offset..offset + 4]);
    var kind := png[offset + 4..offset + 8];
    if exists i :: 0 <= i < 4 && !IsAsciiLetter(kind[i]) then Err(InvalidType) else
    if 97 <= kind[2] <= 122 then Err(ReservedBit) else
    var dataEnd := offset + 8 + length;
    if dataEnd + 4 > |png| then Err(TruncatedData(kind)) else
    if RegisterNumber(Crc(png[offset + 4..dataEnd])) != ReadUInt32BE(png[dataEnd..dataEnd + 4])
    then Err(BadCrc(kind))
    else Ok((Chunk(kind, png[offset + 8..dataEnd]), dataEnd + 4))
  }

  /** The layout of section 3.2 of RFC 2083. */
  function EncodeChunk(c: Chunk): (b: Bytes)
    requires |c.data| < UINT32_LIMIT
    ensures |b| == |c.data| + |c.kind| + 8
  {
    UInt32Bytes(|c.data|) + c.kind + c.data + RegisterBytes(Crc(c.kind + c.data))
  }

  lemma ReadEncoded(before: Bytes, c: Chunk, after: Bytes)
    requires c.WellFormed()
    ensures ReadChunk(before + EncodeChunk(c) + after, |before|) == Ok((c, |before| + |EncodeChunk(c)|))
  {
    hide Crc, UInt32Bytes, ReadUInt32BE, RegisterBytes;
    var png, offset := before + EncodeChunk(c) + after, |before|;
    assert png[offset..offset + 4] == UInt32Bytes(|c.data|);
    ReadWritten(|c.data|);
    assert png[offset + 4..offset + 8] == c.kind;
    var dataEnd := offset + 8 + |c.data|;
    assert png[offset + 4..dataEnd] == c.kind + c.data;
    assert png[offset + 8..dataEnd] == c.data;
    assert png[dataEnd..dataEnd + 4] == RegisterBytes(Crc(c.kind + c.data));
  }

  lemma EncodedRead(png: Bytes, offset: nat)
    requires ReadChunk(png, offset).Ok?
    ensures var (c, next) := ReadChunk(png, offset).value;
            c.WellFormed() && png[offset..next] == EncodeChunk(c)
  {
    hide Crc, UInt32Bytes, ReadUInt32BE, RegisterBytes;
    var (c, next) := ReadChunk(png, offset).value;
    WrittenRead(png[offset..offset + 4]);
    var dataEnd := next - 4;
    assert png[offset + 4..dataEnd] == c.kind + c.data;
    WrittenRead(png[dataEnd..next]);
    WrittenRead(RegisterBytes(Crc(c.kind + c.data)));
    assert png[offset..next] == png[offset..offset + 4] + png[offset + 4..dataEnd] + png[dataEnd..next];
  }

  /** A chunk is read exactly where a well-formed one has been encoded. */
  lemma ReadsExactly(png: Bytes, offset: nat, c: Chunk, next: nat)
    ensures ReadChunk(png, offset) == Ok((c, next)) <==>
            c.WellFormed() && offset <= next <= |png| && png[offset..next] == EncodeChunk(c)
  {
    hide ReadChunk, EncodeChunk, IsAsciiLetter;
    if ReadChunk(png, offset) == Ok((c, next)) {
      EncodedRead(png, offset);
    }
    if c.WellFormed() && offset <= next <= |png| && png[offset..next] == EncodeChunk(c) {
      assert png == png[..offset] + EncodeChunk(c) + png[next..];
      ReadEncoded(png[..offset], c, png[next..]);
    }
  }

  /** A chunk that is not read is refused for the first of these reasons. */
  lemma ReadChunkRefuses(png: Bytes, offset: nat)
    ensures var r := ReadChunk(png, offset);
            if |png| < offset + 12 then r == Err(TruncatedChunk) else
            var kind := png[offset + 4..offset + 8];
            var (letters, end) := ((forall i :: 0 <= i < 4 ==> 65 <= kind[i] <= 90 || 97 <= kind[i] <= 122),
                                   offset + 12 + ReadUInt32BE(png[offset..offset + 4]));
            && (r == Err(InvalidType) <==> !letters)
            && (r == Err(ReservedBit) <==> letters && 97 <= kind[2] <= 122)
            && (r == Err(TruncatedData(kind)) <==> letters && 65 <= kind[2] <= 90 && |png| < end)
            && (r.Err? ==> r == Err(InvalidType) || r == Err(ReservedBit) || r == Err(TruncatedData(kind))
                           || r == Err(BadCrc(kind)))
  {
    hide Crc, ReadUInt32BE, RegisterNumber;
  }

  /** Inside the type and data bytes of the chunk at an offset, and nowhere else in that
      chunk, a burst of at most 32 bits has hit. */
  ghost predicate ChunkDamaged(png: Bytes, altered: Bytes, offset: nat)
    requires ReadChunk(png, offset).Ok? && |altered| == |png|
  {
    var next := ReadChunk(png, offset).value.1;
    && altered[offset..offset + 4] == png[offset..offset + 4]
    && altered[next - 4..next] == png[next - 4..next]
    && altered[offset + 4..next - 4] != png[offset + 4..next - 4]
    && DifferInBurst(png[offset + 4..next - 4], altered[offset + 4..next - 4])
  }

  /** A damaged chunk is refused, never taken for another one. */
  lemma DamagedChunkRejected(png: Bytes, altered: Bytes, offset: nat)
    requires ReadChunk(png, offset).Ok? && |altered| == |png|
    requires ChunkDamaged(png, altered, offset)
    ensures var r := ReadChunk(altered, offset);
            r.Err? && (r.error.InvalidType? || r.error.ReservedBit? || r.error.BadCrc?)
  {
    hide Crc, ReadUInt32BE, RegisterNumber, DifferInBurst;
    var next := ReadChunk(png, offset).value.1;
    var covered, covered' := png[offset + 4..next - 4], altered[offset + 4..next - 4];
    BurstDetected(covered, covered');
    if RegisterNumber(Crc(covered)) == RegisterNumber(Crc(covered')) {
      RegisterNumberInjective(Crc(covered), Crc(covered'));
    }
  }

  // ----- the file -----

  datatype Image = Image(palette: Bytes, transparency: Bytes, idat: seq<Bytes>)
  {
    ghost predicate Canonical() {
      && |palette| == PALETTE_BYTES
      && |transparency| == TRANSPARENCY_BYTES
      && idat != []
      && forall i :: 0 <= i < |idat| ==> |idat[i]| < UINT32_LIMIT
    }
  }

  function ExpectChunk(c: Chunk, kind: Bytes, length: nat): Result<()> {
    if c.kind != kind then Err(UnexpectedChunk(kind, c.kind))
    else if |c.data| != length then Err(InvalidLength(kind, |c.data|))
    else Ok(())
  }

  /** A chunk of an expected type and length. */
  function ReadExpected(png: Bytes, offset: nat, kind: Bytes, length: nat): (r: Result<(Bytes, nat)>)
    ensures r.Ok? ==> offset + 12 <= r.value.1 <= |png|
  {
    var read := ReadChunk(png, offset);
    if read.Err? then Err(read.error) else
    var (c, next) := read.value;
    var expected := ExpectChunk(c, kind, length);
    if expected.Err? then Err(expected.error) else Ok((c.data, next))
  }

  predicate IsCanonicalHeader(data: Bytes)
    requires |data| == 13
  {
    && ReadUInt32BE(data[0..4]) == WIDTH
    && ReadUInt32BE(data[4..8]) == HEIGHT
    && data[8] == BIT_DEPTH
    && data[9] == COLOR_TYPE
    && data[10] == 0
    && data[11] == 0
    && data[12] == 0
  }

  const HEADER: Bytes := [0, 0, 1, 0, 0, 0, 1, 0, 4, 3, 0, 0, 0]

  lemma OnlyCanonicalHeader(data: Bytes)
    requires |data| == 13
    ensures IsCanonicalHeader(data) <==> data == HEADER
  {}

  /** What the chunk loop makes of the bytes from an offset on, IDAT data collected so far. */
  ghost function Scan(png: Bytes, offset: nat, idat: seq<Bytes>): (r: Result<seq<Bytes>>)
    decreases |png| - offset
  {
    if offset >= |png| then Err(MissingIend) else
    var read := ReadChunk(png, offset);
    if read.Err? then Err(read.error) else
    var (c, next) := read.value;
    if c.kind == IDAT then Scan(png, next, idat + [c.data])
    else if c.kind != IEND then Err(ExpectedIdatOrIend(c.kind))
    else if c.data != [] then Err(InvalidIendLength)
    else if idat == [] then Err(MissingIdat)
    else if next != |png| then Err(TrailingBytes)
    else Ok(idat)
  }

  ghost function Structure(png: Bytes): Result<Image> {
    if |png| < 8 || png[..8] != SIGNATURE then Err(BadSignature) else
    var header := ReadExpected(png, 8, IHDR, 13);
    if header.Err? then Err(header.error) else
    if !IsCanonicalHeader(header.value.0) then Err(NotCanonical) else
    var palette := ReadExpected(png, header.value.1, PLTE, PALETTE_BYTES);
    if palette.Err? then Err(palette.error) else
    var transparency := ReadExpected(png, palette.value.1, TRNS, TRANSPARENCY_BYTES);
    if transparency.Err? then Err(transparency.error) else
    var idat := Scan(png, transparency.value.1, []);
    if idat.Err? then Err(idat.error) else
    Ok(Image(palette.value.0, transparency.value.0, idat.value))
  }

  method ValidateStructure(png: Bytes) returns (r: Result<Image>)
    ensures r == Structure(png)
    ensures forall image :: r == Ok(image) <==> (image.Canonical() && png == Encode(image))
  {
    forall image
      ensures Structure(png) == Ok(image) <==> (image.Canonical() && png == Encode(image))
    {
      AcceptsExactly(png, image);
    }
    if |png| < 8 || png[..8] != SIGNATURE {
      return Err(BadSignature);
    }
    var offset := 8;
    var header := ReadExpected(png, offset, IHDR, 13);
    if header.Err? {
      return Err(header.error);
    }
    offset := header.value.1;
    if !IsCanonicalHeader(header.value.0) {
      return Err(NotCanonical);
    }
    var palette := ReadExpected(png, offset, PLTE, PALETTE_BYTES);
    if palette.Err? {
      return Err(palette.error);
    }
    offset := palette.value.1;
    var transparency := ReadExpected(png, offset, TRNS, TRANSPARENCY_BYTES);
    if transparency.Err? {
      return Err(transparency.error);
    }
    offset := transparency.value.1;

    var idat: seq<Bytes> := [];
    var sawIend := false;
    ghost var scanned := Scan(png, offset, []);
    while offset < |png|
      invariant !sawIend && Scan(png, offset, idat) == scanned
      decreases |png| - offset
    {
      var read := ReadChunk(png, offset);
      if read.Err? {
        return Err(read.error);
      }
      var (chunk, next) := read.value;
      offset := next;
      if chunk.kind == IDAT {
        idat := idat + [chunk.data];
        continue;
      }
      if chunk.kind == IEND {
        if |chunk.data| != 0 {
          return Err(InvalidIendLength);
        }
        if |idat| == 0 {
          return Err(MissingIdat);
        }
        if offset != |png| {
          return Err(TrailingBytes);
        }
        sawIend := true;
        break;
      }
      return Err(ExpectedIdatOrIend(chunk.kind));
    }
    if !sawIend {
      return Err(MissingIend);
    }
    return Ok(Image(palette.value.0, transparency.value.0, idat));
  }

  // ----- the printer -----

  ghost function EncodeIdat(idat: seq<Bytes>): Bytes
    requires forall i :: 0 <= i < |idat| ==> |idat[i]| < UINT32_LIMIT
  {
    if idat == [] then [] else EncodeChunk(Chunk(IDAT, idat[0])) + EncodeIdat(idat[1..])
  }

  ghost function Encode(image: Image): Bytes
    requires image.Canonical()
  {
    SIGNATURE
    + EncodeChunk(Chunk(IHDR, HEADER))
    + EncodeChunk(Chunk(PLTE, image.palette))
    + EncodeChunk(Chunk(TRNS, image.transparency))
    + EncodeTail(image.idat)
  }

  ghost function EncodeTail(idat: seq<Bytes>): Bytes
    requires forall i :: 0 <= i < |idat| ==> |idat[i]| < UINT32_LIMIT
  {
    EncodeIdat(idat) + EncodeChunk(Chunk(IEND, []))
  }

  lemma {:induction false} ScanEncoded(before: Bytes, soFar: seq<Bytes>, rest: seq<Bytes>)
    requires forall i :: 0 <= i < |rest| ==> |rest[i]| < UINT32_LIMIT
    requires soFar + rest != []
    ensures Scan(before + EncodeTail(rest), |before|, soFar) == Ok(soFar + rest)
    decreases |rest|
  {
    hide ReadChunk, EncodeChunk;
    var png := before + EncodeTail(rest);
    if rest == [] {
      assert png == before + EncodeChunk(Chunk(IEND, [])) + [];
      ReadEncoded(before, Chunk(IEND, []), []);
      assert soFar + rest == soFar;
    } else {
      var c := Chunk(IDAT, rest[0]);
      var before' := before + EncodeChunk(c);
      assert png == before + EncodeChunk(c) + EncodeTail(rest[1..]);
      assert png == before' + EncodeTail(rest[1..]);
      ReadEncoded(before, c, EncodeTail(rest[1..]));
      ScanEncoded(before', soFar + [rest[0]], rest[1..]);
      assert soFar + [rest[0]] + rest[1..] == soFar + rest;
    }
  }

  lemma {:induction false} EncodedScan(png: Bytes, offset: nat, soFar: seq<Bytes>) returns (rest: seq<Bytes>)
    requires offset <= |png| && Scan(png, offset, soFar).Ok?
    ensures Scan(png, offset, soFar).value == soFar + rest != []
    ensures forall i :: 0 <= i < |rest| ==> |rest[i]| < UINT32_LIMIT
    ensures png[offset..] == EncodeTail(rest)
    decreases |png| - offset
  {
    hide ReadChunk, EncodeChunk;
    EncodedRead(png, offset);
    var (c, next) := ReadChunk(png, offset).value;
    if c.kind == IEND {
      rest := [];
      assert soFar + rest == soFar;
      assert png[offset..] == png[offset..next];
      assert EncodeTail(rest) == EncodeChunk(c);
    } else {
      var rest' := EncodedScan(png, next, soFar + [c.data]);
      rest := [c.data] + rest';
      assert rest[1..] == rest';
      assert soFar + [c.data] + rest' == soFar + rest;
      assert png[offset..] == png[offset..next] + png[next..];
      assert EncodeTail(rest) == EncodeChunk(c) + EncodeTail(rest');
    }
  }

  lemma ReadExpectedEncoded(before: Bytes, kind: Bytes, data: Bytes, after: Bytes)
    requires Chunk(kind, data).WellFormed()
    ensures var b := before + EncodeChunk(Chunk(kind, data));
            ReadExpected(b + after, |before|, kind, |data|) == Ok((data, |b|))
  {
    hide ReadChunk, EncodeChunk;
    ReadEncoded(before, Chunk(kind, data), after);
  }

  lemma EncodedAccepted(image: Image)
    requires image.Canonical()
    ensures Structure(Encode(image)) == Ok(image)
  {
    hide ReadExpected, EncodeChunk, Scan, EncodeTail, IsCanonicalHeader;
    var png, tail := Encode(image), EncodeTail(image.idat);
    var header := EncodeChunk(Chunk(IHDR, HEADER));
    var palette := EncodeChunk(Chunk(PLTE, image.palette));
    var transparency := EncodeChunk(Chunk(TRNS, image.transparency));
    assert png[..8] == SIGNATURE;
    assert png == SIGNATURE + header + (palette + transparency + tail);
    ReadExpectedEncoded(SIGNATURE, IHDR, HEADER, palette + transparency + tail);
    OnlyCanonicalHeader(HEADER);
    assert png == SIGNATURE + header + palette + (transparency + tail);
    ReadExpectedEncoded(SIGNATURE + header, PLTE, image.palette, transparency + tail);
    ReadExpectedEncoded(SIGNATURE + header + palette, TRNS, image.transparency, tail);
    ScanEncoded(SIGNATURE + header + palette + transparency, [], image.idat);
    assert [] + image.idat == image.idat;
  }

  lemma EncodedReadExpected(png: Bytes, offset: nat, kind: Bytes, length: nat)
    requires ReadExpected(png, offset, kind, length).Ok?
    ensures var (data, next) := ReadExpected(png, offset, kind, length).value;
            && |data| == length < UINT32_LIMIT
            && png[..next] == png[..offset] + EncodeChunk(Chunk(kind, data))
  {
    hide ReadChunk, EncodeChunk;
    EncodedRead(png, offset);
    var (data, next) := ReadExpected(png, offset, kind, length).value;
    assert png[..next] == png[..offset] + png[offset..next];
  }

  lemma AcceptedEncoded(png: Bytes)
    requires Structure(png).Ok?
    ensures var image := Structure(png).value; image.Canonical() && png == Encode(image)
  {
    hide ReadExpected, EncodeChunk, Scan, EncodeTail, IsCanonicalHeader;
    var (header, o1) := ReadExpected(png, 8, IHDR, 13).value;
    EncodedReadExpected(png, 8, IHDR, 13);
    OnlyCanonicalHeader(header);
    var (palette, o2) := ReadExpected(png, o1, PLTE, PALETTE_BYTES).value;
    EncodedReadExpected(png, o1, PLTE, PALETTE_BYTES);
    var (transparency, o3) := ReadExpected(png, o2, TRNS, TRANSPARENCY_BYTES).value;
    EncodedReadExpected(png, o2, TRNS, TRANSPARENCY_BYTES);
    var idat := EncodedScan(png, o3, []);
    assert [] + idat == idat;
    assert png == png[..o3] + png[o3..];
  }

  /** Acceptance means exactly being the encoding of a canonical image, which is returned. */
  lemma AcceptsExactly(png: Bytes, image: Image)
    ensures Structure(png) == Ok(image) <==> (image.Canonical() && png == Encode(image))
  {
    if Structure(png) == Ok(image) {
      AcceptedEncoded(png);
    }
    if image.Canonical() && png == Encode(image) {
      EncodedAccepted(image);
    }
  }

  // ----- what every accepted file has byte for byte -----

  lemma SmallNumberBytes(n: nat, b: Byte)
    requires n < 256 && Value(b) == n
    ensures UInt32Bytes(n) == [0, 0, 0, b]
  {
    hide Value, ByteOf;
    ByteOfValue(b);
    ZeroByte();
  }

  lemma ZeroByte()
    ensures ByteOf(0) == 0
  {}

  lemma KnownRegisters()
    ensures RegisterBytes(0xAE42_6082) == [0xAE, 0x42, 0x60, 0x82]
    ensures RegisterBytes(0xAE5C_B555) == [0xAE, 0x5C, 0xB5, 0x55]
  {}

  /** The last chunk as every PNG file has it, length and checksum included. */
  lemma IendEncoded()
    ensures EncodeChunk(Chunk(IEND, [])) == [0, 0, 0, 0, 73, 69, 78, 68, 0xAE, 0x42, 0x60, 0x82]
  {
    hide Crc, UInt32Bytes, RegisterBytes;
    SmallNumberBytes(0, 0);
    assert IEND + [] == [73, 69, 78, 68];
    IendChecksum();
    KnownRegisters();
  }

  lemma IhdrEncoded()
    ensures EncodeChunk(Chunk(IHDR, HEADER)) == [0, 0, 0, 13] + IHDR + HEADER + [0xAE, 0x5C, 0xB5, 0x55]
  {
    hide Crc, UInt32Bytes, RegisterBytes;
    SmallNumberBytes(13, 13);
    hide Value, ByteOf;
    assert IHDR + HEADER == [73, 72, 68, 82, 0, 0, 1, 0, 0, 0, 1, 0, 4, 3, 0, 0, 0];
    IhdrChecksum();
    KnownRegisters();
  }

  /** A chunk's length and type, as they stand in front of its data. */
  lemma ChunkStart(kind: Bytes, data: Bytes, n: nat, b: Byte)
    requires |kind| == 4 && |data| == n < 256 && Value(b) == n
    ensures EncodeChunk(Chunk(kind, data))[..8] == [0, 0, 0, b] + kind
    ensures EncodeChunk(Chunk(kind, data))[8..8 + n] == data
  {
    hide Crc, UInt32Bytes, RegisterBytes;
    SmallNumberBytes(n, b);
  }

  lemma InPlace(start: Bytes, palette: Bytes, transparency: Bytes, idat: Bytes, end: Bytes)
    requires |start| == 33 && |palette| == 60 && |transparency| == 28 && |end| == 12
    ensures var png := start + palette + transparency + idat + end;
            && |png| >= 133 && png[..33] == start && png[|png| - 12..] == end
            && png[33..41] == palette[..8] && png[41..89] == palette[8..56]
            && png[93..101] == transparency[..8] && png[101..117] == transparency[8..24]
  {}

  lemma SignatureAndHeader()
    ensures SIGNATURE + EncodeChunk(Chunk(IHDR, HEADER)) ==
            [137, 80, 78, 71, 13, 10, 26, 10, 0, 0, 0, 13, 73, 72, 68, 82,
             0, 0, 1, 0, 0, 0, 1, 0, 4, 3, 0, 0, 0, 0xAE, 0x5C, 0xB5, 0x55]
  {
    hide EncodeChunk;
    IhdrEncoded();
  }

  /** Signature, header with its checksum, palette and transparency in their places, and the
      closing chunk: written out, whatever the image. */
  lemma AcceptedBytes(png: Bytes)
    requires Structure(png).Ok?
    ensures |png| >= 133
    ensures png[..33] == [137, 80, 78, 71, 13, 10, 26, 10, 0, 0, 0, 13, 73, 72, 68, 82,
                          0, 0, 1, 0, 0, 0, 1, 0, 4, 3, 0, 0, 0, 0xAE, 0x5C, 0xB5, 0x55]
    ensures png[33..41] == [0, 0, 0, 48, 80, 76, 84, 69] && png[41..89] == Structure(png).value.palette
    ensures png[93..101] == [0, 0, 0, 16, 116, 82, 78, 83] && png[101..117] == Structure(png).value.transparency
    ensures png[|png| - 12..] == [0, 0, 0, 0, 73, 69, 78, 68, 0xAE, 0x42, 0x60, 0x82]
  {
    hide EncodeChunk, Structure, EncodeIdat;
    var image := Structure(png).value;
    AcceptsExactly(png, image);
    SignatureAndHeader();
    IendEncoded();
    PaletteStart(image.palette);
    TransparencyStart(image.transparency);
    var start := SIGNATURE + EncodeChunk(Chunk(IHDR, HEADER));
    var palette, transparency := EncodeChunk(Chunk(PLTE, image.palette)), EncodeChunk(Chunk(TRNS, image.transparency));
    var idat, end := EncodeIdat(image.idat), EncodeChunk(Chunk(IEND, []));
    assert png == start + palette + transparency + (idat + end);
    assert start + palette + transparency + (idat + end) == start + palette + transparency + idat + end;
    InPlace(start, palette, transparency, idat, end);
  }

  lemma PaletteStart(palette: Bytes)
    requires |palette| == 48
    ensures EncodeChunk(Chunk(PLTE, palette))[..8] == [0, 0, 0, 48, 80, 76, 84, 69]
    ensures EncodeChunk(Chunk(PLTE, palette))[8..56] == palette
  {
    hide EncodeChunk;
    ChunkStart(PLTE, palette, 48, 48);
  }

  lemma TransparencyStart(transparency: Bytes)
    requires |transparency| == 16
    ensures EncodeChunk(Chunk(TRNS, transparency))[..8] == [0, 0, 0, 16, 116, 82, 78, 83]
    ensures EncodeChunk(Chunk(TRNS, transparency))[8..24] == transparency
  {
    hide EncodeChunk;
    ChunkStart(TRNS, transparency, 16, 16);
  }

  // ----- damage anywhere in an accepted file -----

  /** Reading chunk after chunk from one offset arrives at another. */
  ghost predicate ChunksLeadTo(png: Bytes, from: nat, offset: nat)
    decreases |png| - from
  {
    from == offset || (ReadChunk(png, from).Ok? && ChunksLeadTo(png, ReadChunk(png, from).value.1, offset))
  }

  lemma {:induction false} LeadsForward(png: Bytes, from: nat, offset: nat)
    requires ChunksLeadTo(png, from, offset)
    ensures from <= offset
    decreases |png| - from
  {
    if from != offset {
      LeadsForward(png, ReadChunk(png, from).value.1, offset);
    }
  }

  lemma {:induction false} ScannedChunksRead(png: Bytes, from: nat, idat: seq<Bytes>, offset: nat)
    requires Scan(png, from, idat).Ok? && ChunksLeadTo(png, from, offset) && offset < |png|
    ensures ReadChunk(png, offset).Ok?
    decreases |png| - from
  {
    hide ReadChunk;
    var (c, next) := ReadChunk(png, from).value;
    if from != offset {
      if c.kind == IDAT {
        ScannedChunksRead(png, next, idat + [c.data], offset);
      } else {
        LeadsForward(png, next, offset);
      }
    }
  }

  lemma AcceptedChunksRead(png: Bytes, offset: nat)
    requires Structure(png).Ok? && ChunksLeadTo(png, 8, offset) && offset < |png|
    ensures ReadChunk(png, offset).Ok?
  {
    hide ReadChunk;
    var (_, o1) := ReadExpected(png, 8, IHDR, 13).value;
    var (_, o2) := ReadExpected(png, o1, PLTE, PALETTE_BYTES).value;
    var (_, o3) := ReadExpected(png, o2, TRNS, TRANSPARENCY_BYTES).value;
    if offset != 8 && offset != o1 && offset != o2 {
      assert ChunksLeadTo(png, o1, offset);
      assert ChunksLeadTo(png, o2, offset);
      assert ChunksLeadTo(png, o3, offset);
      ScannedChunksRead(png, o3, [], offset);
    }
  }

  lemma ReadsAlike(png: Bytes, altered: Bytes, from: nat, limit: nat)
    requires limit <= |png| == |altered| && png[..limit] == altered[..limit]
    requires ReadChunk(png, from).Ok? && ReadChunk(png, from).value.1 <= limit
    ensures ReadChunk(altered, from) == ReadChunk(png, from)
  {
    hide Crc, ReadUInt32BE, RegisterNumber;
    var (c, next) := ReadChunk(png, from).value;
    SliceAlike(png, altered, limit, from, from + 4);
    SliceAlike(png, altered, limit, from + 4, from + 8);
    SliceAlike(png, altered, limit, from + 4, next - 4);
    SliceAlike(png, altered, limit, from + 8, next - 4);
    SliceAlike(png, altered, limit, next - 4, next);
  }

  lemma SliceAlike(png: Bytes, altered: Bytes, limit: nat, i: nat, j: nat)
    requires i <= j <= limit <= |png| == |altered| && png[..limit] == altered[..limit]
    ensures png[i..j] == altered[i..j]
  {
    assert png[i..j] == png[..limit][i..j] && altered[i..j] == altered[..limit][i..j];
  }

  lemma {:induction false} LeadsAlike(png: Bytes, altered: Bytes, from: nat, offset: nat)
    requires offset <= |png| == |altered| && png[..offset] == altered[..offset]
    requires ChunksLeadTo(png, from, offset)
    ensures ChunksLeadTo(altered, from, offset)
    decreases |png| - from
  {
    hide ReadChunk;
    if from != offset {
      var next := ReadChunk(png, from).value.1;
      LeadsForward(png, next, offset);
      ReadsAlike(png, altered, from, offset);
      LeadsAlike(png, altered, next, offset);
    }
  }

  /** Up to some chunk, which is sound in the original, the files are the same; that chunk's
      type or data was hit by a burst of at most 32 bits. What follows it is arbitrary. */
  ghost predicate FileDamaged(png: Bytes, altered: Bytes, offset: nat) {
    && offset < |png| == |altered| && altered[..offset] == png[..offset]
    && ChunksLeadTo(png, 8, offset)
    && ReadChunk(png, offset).Ok? && ChunkDamaged(png, altered, offset)
  }

  /** A file damaged within a chunk is never accepted. */
  lemma DamagedFileRejected(png: Bytes, altered: Bytes, offset: nat)
    ensures FileDamaged(png, altered, offset) ==> Structure(altered).Err?
  {
    if FileDamaged(png, altered, offset) {
      hide ReadChunk, Structure, ChunkDamaged;
      DamagedChunkRejected(png, altered, offset);
      LeadsAlike(png, altered, 8, offset);
      if Structure(altered).Ok? {
        AcceptedChunksRead(altered, offset);
      }
    }
  }

  // ----- the verdict on any sequence of sound chunks -----

  ghost predicate AllWellFormed(chunks: seq<Chunk>) {
    forall i :: 0 <= i < |chunks| ==> chunks[i].WellFormed()
  }

  ghost function EncodeAll(chunks: seq<Chunk>): Bytes
    requires AllWellFormed(chunks)
  {
    if chunks == [] then [] else EncodeChunk(chunks[0]) + EncodeAll(chunks[1..])
  }

  ghost function JudgeExpected(chunks: seq<Chunk>, kind: Bytes, length: nat): Result<()> {
    if chunks == [] then Err(TruncatedChunk) else ExpectChunk(chunks[0], kind, length)
  }

  ghost function JudgeTail(chunks: seq<Chunk>, idat: seq<Bytes>): Result<seq<Bytes>> {
    if chunks == [] then Err(MissingIend)
    else if chunks[0].kind == IDAT then JudgeTail(chunks[1..], idat + [chunks[0].data])
    else if chunks[0].kind != IEND then Err(ExpectedIdatOrIend(chunks[0].kind))
    else if chunks[0].data != [] then Err(InvalidIendLength)
    else if idat == [] then Err(MissingIdat)
    else if |chunks| > 1 then Err(TrailingBytes)
    else Ok(idat)
  }

  /** The chunk grammar, on chunks instead of bytes. */
  ghost function Judge(chunks: seq<Chunk>): Result<Image> {
    var header := JudgeExpected(chunks, IHDR, 13);
    if header.Err? then Err(header.error) else
    if chunks[0].data != HEADER then Err(NotCanonical) else
    var palette := JudgeExpected(chunks[1..], PLTE, PALETTE_BYTES);
    if palette.Err? then Err(palette.error) else
    var transparency := JudgeExpected(chunks[2..], TRNS, TRANSPARENCY_BYTES);
    if transparency.Err? then Err(transparency.error) else
    var idat := JudgeTail(chunks[3..], []);
    if idat.Err? then Err(idat.error) else
    Ok(Image(chunks[1].data, chunks[2].data, idat.value))
  }

  lemma RestWellFormed(chunks: seq<Chunk>)
    requires AllWellFormed(chunks) && chunks != []
    ensures chunks[0].WellFormed() && AllWellFormed(chunks[1..])
  {}

  lemma EncodeAllEmpty(chunks: seq<Chunk>)
    requires AllWellFormed(chunks)
    ensures EncodeAll(chunks) == [] <==> chunks == []
  {}

  lemma {:induction false} ScanJudged(before: Bytes, chunks: seq<Chunk>, idat: seq<Bytes>)
    requires AllWellFormed(chunks)
    ensures Scan(before + EncodeAll(chunks), |before|, idat) == JudgeTail(chunks, idat)
    decreases |chunks|
  {
    hide ReadChunk, EncodeChunk, IsAsciiLetter, AllWellFormed;
    if chunks != [] {
      RestWellFormed(chunks);
      hide Chunk.WellFormed;
      var c, rest := chunks[0], chunks[1..];
      assert before + EncodeAll(chunks) == before + EncodeChunk(c) + EncodeAll(rest);
      ReadEncoded(before, c, EncodeAll(rest));
      ScanJudged(before + EncodeChunk(c), rest, idat + [c.data]);
      EncodeAllEmpty(rest);
    }
  }

  lemma ReadExpectedJudged(before: Bytes, chunks: seq<Chunk>, kind: Bytes, length: nat)
    requires AllWellFormed(chunks)
    ensures var r := ReadExpected(before + EncodeAll(chunks), |before|, kind, length);
            match JudgeExpected(chunks, kind, length)
            case Err(e) => r == Err(e)
            case Ok(_) => r == Ok((chunks[0].data, |before + EncodeChunk(chunks[0])|))
                          && before + EncodeAll(chunks) == before + EncodeChunk(chunks[0]) + EncodeAll(chunks[1..])
  {
    hide EncodeChunk, ReadChunk, IsAsciiLetter, AllWellFormed;
    if chunks != [] {
      RestWellFormed(chunks);
      hide Chunk.WellFormed;
      assert before + EncodeAll(chunks) == before + EncodeChunk(chunks[0]) + EncodeAll(chunks[1..]);
      ReadEncoded(before, chunks[0], EncodeAll(chunks[1..]));
    } else {
      assert before + EncodeAll(chunks) == before;
      BareEnd(before);
    }
  }

  lemma BareEnd(png: Bytes)
    ensures ReadChunk(png, |png|) == Err(TruncatedChunk)
  {}

  /** On soundly encoded chunks the byte parser gives the verdict of the chunk grammar,
      down to which error it reports. */
  lemma VerdictByGrammar(chunks: seq<Chunk>)
    requires AllWellFormed(chunks)
    ensures Structure(SIGNATURE + EncodeAll(chunks)) == Judge(chunks)
  {
    hide ReadExpected, EncodeChunk, Scan, EncodeAll, JudgeTail, IsCanonicalHeader;
    var png := SIGNATURE + EncodeAll(chunks);
    assert png[..8] == SIGNATURE;
    ReadExpectedJudged(SIGNATURE, chunks, IHDR, 13);
    if JudgeExpected(chunks, IHDR, 13).Ok? {
      OnlyCanonicalHeader(chunks[0].data);
      var b1 := SIGNATURE + EncodeChunk(chunks[0]);
      ReadExpectedJudged(b1, chunks[1..], PLTE, PALETTE_BYTES);
      if JudgeExpected(chunks[1..], PLTE, PALETTE_BYTES).Ok? {
        var b2 := b1 + EncodeChunk(chunks[1]);
        assert chunks[1..][1..] == chunks[2..];
        ReadExpectedJudged(b2, chunks[2..], TRNS, TRANSPARENCY_BYTES);
        if JudgeExpected(chunks[2..], TRNS, TRANSPARENCY_BYTES).Ok? {
          assert chunks[2..][1..] == chunks[3..];
          ScanJudged(b2 + EncodeChunk(chunks[2]), chunks[3..], []);
        }
      }
    }
  }
}
