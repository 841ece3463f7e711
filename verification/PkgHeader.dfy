/** The fixed 12-byte header in front of every package. */
module PkgHeaders {
  import opened Bytes

  type U8 = n: nat | n < 0x100
  type U16 = n: nat | n < 0x1_0000
  type U32 = n: nat | n < 0x1_0000_0000

  const PKG_CONTENT_MESSAGE: U8 := 0
  const PKG_CONTENT_HEARTBEAT_REQUEST: U8 := 1
  const PKG_CONTENT_HEARTBEAT_REPLY: U8 := 2

  const IMAGE_SIZE_DWORDS: U8 := 3
  const HEADER_SIZE: nat := 12

  datatype PkgHeader = PkgHeader(
    pkgContentType: U8,
    headerSizeDwords: U8,
    contentSpecificValue: U16,
    contentSize: U32,
    attachedBinarySize: U32)
  {
    function AdvertizedHeaderSize(): (n: nat)
    {
      headerSizeDwords * 4
    }

    /** The size of the whole package, as the header announces it. */
    function PackageSize(): (n: nat)
    {
      AdvertizedHeaderSize() + contentSize + attachedBinarySize
    }
  }

  function Make(pkgContentType: U8, contentSpecificValue: U16, contentSize: U32, attachedBinarySize: U32): (h: PkgHeader)
  {
    PkgHeader(pkgContentType, IMAGE_SIZE_DWORDS, contentSpecificValue, contentSize, attachedBinarySize)
  }

  // ---------- The wire image (little-endian words) ----------

  function Word16(n: U16): (b: Buffer)
    ensures |b| == 2
  {
    [(n % 0x100) as Byte, (n / 0x100) as Byte]
  }

  function Word32(n: U32): (b: Buffer)
    ensures |b| == 4
  {
    Word16(n % 0x1_0000) + Word16(n / 0x1_0000)
  }

  function Value16(b: Buffer): (n: U16)
    requires |b| == 2
  {
    b[0] as int + 0x100 * b[1] as int
  }

  function Value32(b: Buffer): (n: U32)
    requires |b| == 4
  {
    Value16(b[..2]) + 0x1_0000 * Value16(b[2..])
  }

  function Encode(h: PkgHeader): (b: Buffer)
    ensures |b| == HEADER_SIZE
  {
    [h.pkgContentType as Byte, h.headerSizeDwords as Byte]
    + Word16(h.contentSpecificValue) + Word32(h.contentSize) + Word32(h.attachedBinarySize)
  }

  /** Reads the header at the front of a stream. */
  function Decode(s: Buffer): (h: PkgHeader)
    requires |s| >= HEADER_SIZE
  {
    PkgHeader(s[0] as int, s[1] as int, Value16(s[2..4]), Value32(s[4..8]), Value32(s[8..12]))
  }

  /** The number that two (or four) bytes stand for, the low byte first. */
  function Little16(b0: Byte, b1: Byte): (n: nat)
  {
    b0 as int + 256 * b1 as int
  }

  function Little32(b0: Byte, b1: Byte, b2: Byte, b3: Byte): (n: nat)
  {
    b0 as int + 256 * b1 as int + 65536 * b2 as int + 16777216 * b3 as int
  }

  /** Which bytes of an image hold which field. */
  ghost predicate LaidOut(h: PkgHeader, b: Buffer)
  {
    && |b| >= 12
    && b[0] as int == h.pkgContentType
    && b[1] as int == h.headerSizeDwords
    && Little16(b[2], b[3]) == h.contentSpecificValue
    && Little32(b[4], b[5], b[6], b[7]) == h.contentSize
    && Little32(b[8], b[9], b[10], b[11]) == h.attachedBinarySize
  }

  lemma WordBytes(b: Buffer)
    ensures |b| == 2 ==> Value16(b) == Little16(b[0], b[1])
    ensures |b| == 4 ==> Value32(b) == Little32(b[0], b[1], b[2], b[3])
  {
    if |b| == 4 {
      assert b[..2] == [b[0], b[1]] && b[2..] == [b[2], b[3]];
    }
  }

  /** The wire layout: type, dwords, content-specific value, content size and attached size,
      at bytes 0, 1, 2, 4 and 8, each low byte first. A buffer reads as the one header that
      it lays out. */
  lemma WireLayout(h: PkgHeader, s: Buffer)
    ensures LaidOut(h, Encode(h))
    ensures |s| >= HEADER_SIZE ==> LaidOut(Decode(s), s) && (LaidOut(h, s) <==> Decode(s) == h)
  {
    EncodedIsLaidOut(h);
    if |s| >= HEADER_SIZE {
      WordBytes(s[2..4]);
      WordBytes(s[4..8]);
      WordBytes(s[8..12]);
    }
  }

  lemma EncodedIsLaidOut(h: PkgHeader)
    ensures LaidOut(h, Encode(h))
  {
    var b := Encode(h);
    Word16RoundTrip(h.contentSpecificValue, []);
    Word32RoundTrip(h.contentSize, []);
    Word32RoundTrip(h.attachedBinarySize, []);
    hide Word16, Word32, Value16, Value32;
    assert b[2..4] == Word16(h.contentSpecificValue) && b[4..8] == Word32(h.contentSize) && b[8..12] == Word32(h.attachedBinarySize);
    WordBytes(b[2..4]);
    WordBytes(b[4..8]);
    WordBytes(b[8..12]);
  }

  lemma Word16RoundTrip(n: U16, b: Buffer)
    ensures Value16(Word16(n)) == n
    ensures |b| == 2 ==> Word16(Value16(b)) == b
  {
  }

  lemma Word32RoundTrip(n: U32, b: Buffer)
    ensures Value32(Word32(n)) == n
    ensures |b| == 4 ==> Word32(Value32(b)) == b
  {
    Word16RoundTrip(n % 0x1_0000, Word32(n)[..2]);
    Word16RoundTrip(n / 0x1_0000, Word32(n)[2..]);
    assert Word32(n)[..2] == Word16(n % 0x1_0000) && Word32(n)[2..] == Word16(n / 0x1_0000);
    if |b| == 4 {
      Word16RoundTrip(0, b[..2]);
      Word16RoundTrip(0, b[2..]);
      assert b == b[..2] + b[2..];
      var lo: int, hi: int := Value16(b[..2]), Value16(b[2..]);
      assert (lo + 0x1_0000 * hi) % 0x1_0000 == lo && (lo + 0x1_0000 * hi) / 0x1_0000 == hi;
    }
  }

  /** A header survives the wire, whatever follows it. */
  lemma DecodeOfEncode(h: PkgHeader, more: Buffer)
    ensures Decode(Encode(h) + more) == h
  {
    var s := Encode(h) + more;
    Word16RoundTrip(h.contentSpecificValue, []);
    Word32RoundTrip(h.contentSize, []);
    Word32RoundTrip(h.attachedBinarySize, []);
    assert s[2..4] == Word16(h.contentSpecificValue);
    assert s[4..8] == Word32(h.contentSize);
    assert s[8..12] == Word32(h.attachedBinarySize);
  }

  /** Every 12 bytes are the image of exactly the header they decode to. */
  lemma EncodeOfDecode(s: Buffer)
    requires |s| >= HEADER_SIZE
    ensures Encode(Decode(s)) == s[..HEADER_SIZE]
  {
    Word16RoundTrip(0, s[2..4]);
    Word32RoundTrip(0, s[4..8]);
    Word32RoundTrip(0, s[8..12]);
    assert s[..12] == s[..2] + s[2..4] + s[4..8] + s[8..12];
    assert s[..2] == [s[0], s[1]];
  }

  /** Reading a header depends on the first 12 bytes only. */
  lemma DecodePrefix(a: Buffer, b: Buffer)
    requires |a| >= HEADER_SIZE
    ensures Decode(a + b) == Decode(a)
  {
    var s := a + b;
    assert s[2..4] == a[2..4] && s[4..8] == a[4..8] && s[8..12] == a[8..12];
  }
}
