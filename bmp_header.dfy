/**
 * The BITMAPFILEHEADER / BITMAPINFOHEADER fields that the loader reads and
 * validates. All multi-byte fields are little-endian, read on a
 * little-endian host.
 */
module BmpHeader {
  import opened Wrappers
  import opened Stdio

  /** "BM" read as a little-endian 16-bit value. */
  const BmpMagic: int := 0x4d42

  /**
   * Why a load fails. All but SizeOverflow are reasons for which the loader
   * returns -1; SizeOverflow is the guard of the corrected loader, where the
   * C code carries on with the size reduced modulo 2^32.
   */
  datatype LoadError =
    | FileNotFound     // fopen failed
    | ReadFailed       // a checked header read came up short
    | NotBitmap        // the first two bytes are not "BM"
    | BadPlanes        // the plane count is not 1
    | BadBitCount      // not 24 bits per pixel
    | SizeOverflow     // corrected loader only: width * height * 3 does not fit 32 bits
    | DataReadFailed   // fewer pixel bytes than the image size (or none at all)

  /** The validated header: where the pixels start and the signed dimensions. */
  datatype Header = Header(dataOffset: nat, width: int, height: int)

  function U16Le(s: seq<byte>): (v: int)
    requires |s| == 2
    ensures 0 <= v < 0x1_0000
  {
    s[0] as int + 0x100 * s[1] as int
  }

  function U32Le(s: seq<byte>): (v: int)
    requires |s| == 4
    ensures 0 <= v < 0x1_0000_0000
  {
    s[0] as int + 0x100 * (s[1] as int + 0x100 * (s[2] as int + 0x100 * s[3] as int))
  }

  /** Division and remainder by 256 split off the lowest byte of a little-endian value. */
  lemma SplitLowByte(lo: int, hi: int)
    requires 0 <= lo < 0x100
    ensures (lo + 0x100 * hi) % 0x100 == lo && (lo + 0x100 * hi) / 0x100 == hi
  {
  }

  /** Byte `i` of a 32-bit field is the `i`-th base-256 digit of its value, lowest first. */
  lemma U32LeDigits(s: seq<byte>)
    requires |s| == 4
    ensures U32Le(s) % 0x100 == s[0] as int
    ensures U32Le(s) / 0x100 % 0x100 == s[1] as int
    ensures U32Le(s) / 0x100 / 0x100 % 0x100 == s[2] as int
    ensures U32Le(s) / 0x100 / 0x100 / 0x100 == s[3] as int
  {
    var upper2 := s[2] as int + 0x100 * s[3] as int;
    var upper1 := s[1] as int + 0x100 * upper2;
    SplitLowByte(s[0] as int, upper1);
    SplitLowByte(s[1] as int, upper2);
    SplitLowByte(s[2] as int, s[3] as int);
  }

  /** A 32-bit two's-complement `int`, as `fread` into an `int` field produces it. */
  function I32Le(s: seq<byte>): (v: int)
    requires |s| == 4
    ensures -0x8000_0000 <= v < 0x8000_0000
    ensures (v - U32Le(s)) % 0x1_0000_0000 == 0
  {
    var u := U32Le(s);
    if u < 0x8000_0000 then u else u - 0x1_0000_0000
  }

  /** A 16-bit little-endian field has exactly one byte pair per value. */
  lemma U16LeDigits(s: seq<byte>, v: int)
    requires |s| == 2 && 0 <= v < 0x1_0000
    ensures U16Le(s) == v <==> s[0] as int == v % 0x100 && s[1] as int == v / 0x100
  {
    if U16Le(s) == v {
      assert v == s[0] as int + 0x100 * s[1] as int;
      assert v / 0x100 == s[1] as int;
    }
  }

  /**
   * The header as `loadBMP` reads it: two bytes of magic, skip 8, a 4-byte
   * data offset, skip 4, then width, height, planes and bit count read one
   * after the other. The width and height reads are not checked; when one
   * comes up short the model substitutes 0, a value that never reaches a
   * result because the bit-count read then fails as well (see
   * Stdio.FailedReadIsSticky). A short planes read, where the C code would
   * compare an uninitialised value, is reported as a read failure.
   * The contract states where each field sits in the file.
   */
  function LoadHeader(file: seq<byte>): (r: Result<Header, LoadError>)
    ensures r == ParseHeaderAt(file)
  {
    var (magic, s1) := Read(Open(file), 2);
    if magic.None? then Failure(ReadFailed)
    else if U16Le(magic.value) != BmpMagic then Failure(NotBitmap)
    else
      var (offBits, s2) := Read(SeekCur(s1, 8), 4);
      if offBits.None? then Failure(ReadFailed)
      else
        var (width, s3) := Read(SeekCur(s2, 4), 4);
        var (height, s4) := Read(s3, 4);
        var (planes, s5) := Read(s4, 2);
        if planes.None? then Failure(ReadFailed)
        else if U16Le(planes.value) != 1 then Failure(BadPlanes)
        else
          var (bitCount, _) := Read(s5, 2);
          if bitCount.None? then Failure(ReadFailed)
          else if U16Le(bitCount.value) != 24 then Failure(BadBitCount)
          else
            Success(Header(U32Le(offBits.value),
                           if width.Some? then I32Le(width.value) else 0,
                           if height.Some? then I32Le(height.value) else 0))
  }

  /**
   * Reference definition by fixed byte positions: magic at 0, data offset
   * at 10, width at 18, height at 22, planes at 26, bit count at 28; the
   * checks in the loader's order.
   */
  function ParseHeaderAt(file: seq<byte>): Result<Header, LoadError>
  {
    if |file| < 2 then Failure(ReadFailed)
    else if U16Le(file[0..2]) != BmpMagic then Failure(NotBitmap)
    else if |file| < 28 then Failure(ReadFailed)
    else if U16Le(file[26..28]) != 1 then Failure(BadPlanes)
    else if |file| < 30 then Failure(ReadFailed)
    else if U16Le(file[28..30]) != 24 then Failure(BadBitCount)
    else Success(Header(DataOffsetOf(file), WidthOf(file), HeightOf(file)))
  }

  /** bfOffBits: where the pixel data starts. */
  function DataOffsetOf(f: seq<byte>): nat
    requires |f| >= 30
  {
    U32Le(f[10..14])
  }

  /** biWidth. */
  function WidthOf(f: seq<byte>): int
    requires |f| >= 30
  {
    I32Le(f[18..22])
  }

  /** biHeight. */
  function HeightOf(f: seq<byte>): int
    requires |f| >= 30
  {
    I32Le(f[22..26])
  }

  /** The byte-level form of the header checks. */
  predicate IsBmp24(file: seq<byte>)
  {
    |file| >= 30 &&
    file[0] == 0x42 && file[1] == 0x4d &&   // "BM"
    file[26] == 1 && file[27] == 0 &&       // one plane
    file[28] == 24 && file[29] == 0         // 24 bits per pixel
  }

  /**
   * The header is accepted exactly when the file has the 30 header bytes,
   * starts with "BM", has one plane and 24 bits per pixel; each rejection
   * comes with the error of the first check that fails, the plane check
   * before the bit-count check.
   */
  lemma HeaderAccepted(file: seq<byte>)
    ensures LoadHeader(file).Success? <==> IsBmp24(file)
    ensures |file| < 2 ==> LoadHeader(file) == Failure(ReadFailed)
    ensures |file| >= 2 && !(file[0] == 0x42 && file[1] == 0x4d) ==> LoadHeader(file) == Failure(NotBitmap)
    ensures (|file| >= 28 && file[0] == 0x42 && file[1] == 0x4d && !(file[26] == 1 && file[27] == 0))
              ==> LoadHeader(file) == Failure(BadPlanes)
    ensures (|file| >= 30 && file[0] == 0x42 && file[1] == 0x4d && file[26] == 1 && file[27] == 0
             && !(file[28] == 24 && file[29] == 0))
              ==> LoadHeader(file) == Failure(BadBitCount)
    ensures LoadHeader(file).Success? ==>
              LoadHeader(file).value == Header(DataOffsetOf(file), WidthOf(file), HeightOf(file))
  {
    if |file| >= 2 {
      U16LeDigits(file[0..2], BmpMagic);
    }
    if |file| >= 28 {
      U16LeDigits(file[26..28], 1);
    }
    if |file| >= 30 {
      U16LeDigits(file[28..30], 24);
    }
  }
}
