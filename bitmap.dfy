/** The Windows bitmap container as the benchmark reads and writes it: a
    14-byte file header and a 40-byte info header, both packed little-endian
    records, followed by width*height*3 bytes of interleaved 3-channel pixels. */
module Bitmap {
  import opened Bytes
  import opened Options

  /** "BM" read as a little-endian 16-bit value. */
  const BmpMagic: u16 := 0x4D42
  const FileHeaderSize := 14
  const InfoHeaderSize := 40
  const HeadersSize := FileHeaderSize + InfoHeaderSize
  /** The largest value of the 32-bit signed `int` the pixel count is computed in. */
  const IntMax := 0x7FFF_FFFF

  datatype FileHeader = FileHeader(
    fileType: u16,
    fileSize: u32,
    reserved1: u16,
    reserved2: u16,
    offsetData: u32)

  datatype InfoHeader = InfoHeader(
    size: u32,
    width: i32,
    height: i32,
    planes: u16,
    bitCount: u16,
    compression: u32,
    sizeImage: u32,
    xPixelsPerMeter: i32,
    yPixelsPerMeter: i32,
    colorsUsed: u32,
    colorsImportant: u32)

  /** The field initialisers of a freshly constructed bitmap. */
  const DefaultFileHeader := FileHeader(BmpMagic, 0, 0, 0, 0)
  const DefaultInfoHeader := InfoHeader(0, 0, 0, 1, 0, 0, 0, 0, 0, 0, 0)

  /** The in-memory contents of a bitmap: both headers and the pixel buffer. */
  datatype Image = Image(header: FileHeader, info: InfoHeader, data: seq<byte>)

  // ---------------------------------------------------------------------------
  // Header layout

  function SerializeFileHeader(h: FileHeader): (r: seq<byte>)
    ensures |r| == FileHeaderSize
  {
    U16Bytes(h.fileType) + U32Bytes(h.fileSize) + U16Bytes(h.reserved1)
      + U16Bytes(h.reserved2) + U32Bytes(h.offsetData)
  }

  function ParseFileHeader(b: seq<byte>): FileHeader
    requires |b| == FileHeaderSize
  {
    FileHeader(ReadU16(b[0..2]), ReadU32(b[2..6]), ReadU16(b[6..8]),
               ReadU16(b[8..10]), ReadU32(b[10..14]))
  }

  function SerializeInfoHeader(h: InfoHeader): (r: seq<byte>)
    ensures |r| == InfoHeaderSize
  {
    U32Bytes(h.size) + I32Bytes(h.width) + I32Bytes(h.height)
      + U16Bytes(h.planes) + U16Bytes(h.bitCount) + U32Bytes(h.compression)
      + U32Bytes(h.sizeImage) + I32Bytes(h.xPixelsPerMeter) + I32Bytes(h.yPixelsPerMeter)
      + U32Bytes(h.colorsUsed) + U32Bytes(h.colorsImportant)
  }

  function ParseInfoHeader(b: seq<byte>): InfoHeader
    requires |b| == InfoHeaderSize
  {
    InfoHeader(ReadU32(b[0..4]), ReadI32(b[4..8]), ReadI32(b[8..12]),
               ReadU16(b[12..14]), ReadU16(b[14..16]), ReadU32(b[16..20]),
               ReadU32(b[20..24]), ReadI32(b[24..28]), ReadI32(b[28..32]),
               ReadU32(b[32..36]), ReadU32(b[36..40]))
  }

  /** The 54 bytes the two packed header records occupy, in declaration order. */
  function SerializeHeaders(h: FileHeader, info: InfoHeader): (r: seq<byte>)
    ensures |r| == HeadersSize
  {
    SerializeFileHeader(h) + SerializeInfoHeader(info)
  }

  lemma ParseSerializeFileHeader(h: FileHeader)
    ensures ParseFileHeader(SerializeFileHeader(h)) == h
  {
    var b := SerializeFileHeader(h);
    assert b[0..2] == U16Bytes(h.fileType);
    assert b[2..6] == U32Bytes(h.fileSize);
    assert b[6..8] == U16Bytes(h.reserved1);
    assert b[8..10] == U16Bytes(h.reserved2);
    assert b[10..14] == U32Bytes(h.offsetData);
  }

  lemma SerializeParseFileHeader(b: seq<byte>)
    requires |b| == FileHeaderSize
    ensures SerializeFileHeader(ParseFileHeader(b)) == b
  {
    assert b == b[0..2] + b[2..6] + b[6..8] + b[8..10] + b[10..14];
  }

  lemma ParseSerializeInfoHeader(h: InfoHeader)
    ensures ParseInfoHeader(SerializeInfoHeader(h)) == h
  {
    var b := SerializeInfoHeader(h);
    assert b[0..4] == U32Bytes(h.size);
    assert b[4..8] == I32Bytes(h.width);
    assert b[8..12] == I32Bytes(h.height);
    assert b[12..14] == U16Bytes(h.planes);
    assert b[14..16] == U16Bytes(h.bitCount);
    assert b[16..20] == U32Bytes(h.compression);
    assert b[20..24] == U32Bytes(h.sizeImage);
    assert b[24..28] == I32Bytes(h.xPixelsPerMeter);
    assert b[28..32] == I32Bytes(h.yPixelsPerMeter);
    assert b[32..36] == U32Bytes(h.colorsUsed);
    assert b[36..40] == U32Bytes(h.colorsImportant);
  }

  lemma SerializeParseInfoHeader(b: seq<byte>)
    requires |b| == InfoHeaderSize
    ensures SerializeInfoHeader(ParseInfoHeader(b)) == b
  {
    assert b == b[0..4] + b[4..8] + b[8..12] + b[12..14] + b[14..16] + b[16..20]
      + b[20..24] + b[24..28] + b[28..32] + b[32..36] + b[36..40];
  }

  /** The 54-byte header block and the two records are in one-to-one correspondence:
      parsing the serialised headers gives back every field, and serialising the
      parse of any 54 bytes gives back those bytes. */
  lemma HeadersRoundTrip(h: FileHeader, info: InfoHeader, b: seq<byte>)
    requires |b| == HeadersSize
    ensures var s := SerializeHeaders(h, info);
      ParseFileHeader(s[..FileHeaderSize]) == h && ParseInfoHeader(s[FileHeaderSize..]) == info
    ensures SerializeHeaders(ParseFileHeader(b[..FileHeaderSize]), ParseInfoHeader(b[FileHeaderSize..])) == b
  {
    var s := SerializeHeaders(h, info);
    assert s[..FileHeaderSize] == SerializeFileHeader(h);
    assert s[FileHeaderSize..] == SerializeInfoHeader(info);
    ParseSerializeFileHeader(h);
    ParseSerializeInfoHeader(info);
    SerializeParseFileHeader(b[..FileHeaderSize]);
    SerializeParseInfoHeader(b[FileHeaderSize..]);
    assert b == b[..FileHeaderSize] + b[FileHeaderSize..];
  }

  // ---------------------------------------------------------------------------
  // Loading

  datatype LoadStatus =
    | Loaded
    | CannotOpen
    | NotBitmap
      /** width*height*3 is negative or overflows `int`: the resize of the pixel
          buffer then throws (or the product is undefined) and the program stops. */
    | BadDimensions

  /** The header bytes after the two header reads: the file's first bytes laid
      over the previous contents of the records. A file shorter than the headers
      leaves the bytes it does not reach as they were. */
  function Overlay(file: seq<byte>, prev: seq<byte>): (r: seq<byte>)
    requires |prev| == HeadersSize
    ensures |r| == HeadersSize
    ensures forall i :: 0 <= i < HeadersSize ==> r[i] == (if i < |file| then file[i] else prev[i])
  {
    if |file| >= HeadersSize then file[..HeadersSize] else file + prev[|file|..]
  }

  /** Whether width*height*3 is a buffer size the 32-bit `int` product can name. */
  predicate ValidDimensions(info: InfoHeader) {
    0 <= info.width * info.height * 3 <= IntMax
  }

  /** The pixel buffer after `resize(n)`: old bytes kept, new bytes zero. */
  function Resize(d: seq<byte>, n: nat): (r: seq<byte>)
    ensures |r| == n
    ensures forall i :: 0 <= i < n ==> r[i] == (if i < |d| then d[i] else 0)
  {
    seq(n, i requires 0 <= i < n => if i < |d| then d[i] else 0)
  }

  /** The bytes a read of n bytes at offset off gets from the file: as many as exist. */
  function Available(file: seq<byte>, off: nat, n: nat): (r: seq<byte>)
    ensures |r| <= n
    ensures off + n <= |file| ==> r == file[off..off + n]
  {
    if off >= |file| then []
    else if off + n <= |file| then file[off..off + n]
    else file[off..]
  }

  /** The buffer after a read has stored src at its start. */
  function ReadInto(d: seq<byte>, src: seq<byte>): (r: seq<byte>)
    requires |src| <= |d|
    ensures |r| == |d| && r[..|src|] == src && r[|src|..] == d[|src|..]
  {
    src + d[|src|..]
  }

  /** What loading `file` (None: the file cannot be opened) does to a bitmap
      whose contents were prev: the status returned and the new contents. */
  function LoadImage(prev: Image, file: Option<seq<byte>>): (LoadStatus, Image)
  {
    match file
    case None => (CannotOpen, prev)
    case Some(f) =>
      var bytes := Overlay(f, SerializeHeaders(prev.header, prev.info));
      var h := ParseFileHeader(bytes[..FileHeaderSize]);
      var info := ParseInfoHeader(bytes[FileHeaderSize..]);
      if h.fileType != BmpMagic then (NotBitmap, Image(h, info, prev.data))
      else if !ValidDimensions(info) then (BadDimensions, Image(h, info, prev.data))
      else
        var n := info.width * info.height * 3;
        var sized := Resize(prev.data, n);
        // A file shorter than the headers has failed the stream, so the seek and
        // the pixel read do nothing.
        var got := if |f| < HeadersSize then [] else Available(f, h.offsetData, n);
        (Loaded, Image(h, info, ReadInto(sized, got)))
  }

  /** The status reports every failure: an unopenable file, and a file whose first
      two bytes are not "BM"; a successful load leaves a pixel buffer of exactly
      width*height*3 bytes. */
  lemma LoadStatusCases(prev: Image, file: Option<seq<byte>>)
    ensures file.None? <==> LoadImage(prev, file).0 == CannotOpen
    ensures file.Some? && |file.value| >= 2 && (file.value[0] != 'B' as int || file.value[1] != 'M' as int)
            ==> LoadImage(prev, file).0 == NotBitmap
    ensures file.Some? && |file.value| >= 2 && LoadImage(prev, file).0 == Loaded
            ==> file.value[0] == 'B' as int && file.value[1] == 'M' as int
    ensures LoadImage(prev, file).0 == Loaded ==>
              var img := LoadImage(prev, file).1;
              |img.data| == img.info.width * img.info.height * 3
  {
    if file.Some? && |file.value| >= 2 {
      var f := file.value;
      var bytes := Overlay(f, SerializeHeaders(prev.header, prev.info));
      var h := ParseFileHeader(bytes[..FileHeaderSize]);
      assert bytes[..FileHeaderSize][0..2] == f[0..2];
      assert h.fileType == (f[0] as int) + 0x100 * (f[1] as int) by {
        assert f[0..2][1..] == f[1..2];
        assert LeValue(f[1..2]) == f[1] as int by {
          assert f[1..2][1..] == [];
        }
      }
    }
  }

  /** With a file long enough for the headers and the declared pixels, a
      successful load holds exactly the file bytes [offsetData, offsetData + n). */
  lemma LoadReadsPixelsAtOffset(prev: Image, f: seq<byte>)
    requires |f| >= HeadersSize
    requires LoadImage(prev, Some(f)).0 == Loaded
    ensures var img := LoadImage(prev, Some(f)).1;
      var n := img.info.width * img.info.height * 3;
      img.header.offsetData + n <= |f| ==> img.data == f[img.header.offsetData..img.header.offsetData + n]
    ensures var img := LoadImage(prev, Some(f)).1;
      SerializeHeaders(img.header, img.info) == f[..HeadersSize]
  {
    var bytes := Overlay(f, SerializeHeaders(prev.header, prev.info));
    assert bytes == f[..HeadersSize];
    HeadersRoundTrip(DefaultFileHeader, DefaultInfoHeader, bytes);
  }

  /** A short pixel read is not detected: a successful load of a file of at
      least 54 bytes holds the bytes the file has from the data offset on, and
      the rest of the buffer keeps what resizing left there; for an object whose
      buffer was empty, as in a fresh bitmap, that rest is zeros. */
  lemma LoadShortPixelRead(prev: Image, f: seq<byte>)
    requires |f| >= HeadersSize
    requires LoadImage(prev, Some(f)).0 == Loaded
    ensures var img := LoadImage(prev, Some(f)).1;
      var n := img.info.width * img.info.height * 3;
      var got := Available(f, img.header.offsetData, n);
      && |img.data| == n && |got| <= n
      && img.data[..|got|] == got
      && forall i :: |got| <= i < n ==> img.data[i] == (if i < |prev.data| then prev.data[i] else 0)
    ensures prev.data == [] ==>
      var img := LoadImage(prev, Some(f)).1;
      var n := img.info.width * img.info.height * 3;
      var got := Available(f, img.header.offsetData, n);
      img.data == got + seq(n - |got|, _ => 0)
  {
    var img := LoadImage(prev, Some(f)).1;
    var n := img.info.width * img.info.height * 3;
    var got := Available(f, img.header.offsetData, n);
    assert img.data == ReadInto(Resize(prev.data, n), got);
    if prev.data == [] {
      assert img.data == got + seq(n - |got|, _ => 0);
    }
  }

  // ---------------------------------------------------------------------------
  // Saving

  /** The file `save` writes: file header, info header, then the pixel buffer. */
  function Encode(img: Image): (r: seq<byte>)
    ensures |r| == HeadersSize + |img.data|
    ensures r[HeadersSize..] == img.data
  {
    SerializeHeaders(img.header, img.info) + img.data
  }

  /** Loading a saved bitmap restores its headers and pixels, whatever the loading
      object held before, provided the image is a well-formed 24-bit bitmap whose
      pixels directly follow the headers. */
  lemma LoadOfEncode(prev: Image, img: Image)
    requires img.header.fileType == BmpMagic
    requires img.header.offsetData == HeadersSize
    requires ValidDimensions(img.info)
    requires |img.data| == img.info.width * img.info.height * 3
    ensures LoadImage(prev, Some(Encode(img))) == (Loaded, img)
  {
    var f := Encode(img);
    var bytes := Overlay(f, SerializeHeaders(prev.header, prev.info));
    assert bytes == SerializeHeaders(img.header, img.info);
    HeadersRoundTrip(img.header, img.info, bytes);
    var h := ParseFileHeader(bytes[..FileHeaderSize]);
    var info := ParseInfoHeader(bytes[FileHeaderSize..]);
    assert h == img.header && info == img.info;
    var n := info.width * info.height * 3;
    var sized := Resize(prev.data, n);
    assert Available(f, h.offsetData, n) == img.data;
    assert ReadInto(sized, img.data) == img.data;
  }

  // ---------------------------------------------------------------------------
  // The bitmap object

  /** A bitmap whose `load` overwrites its fields in place. */
  class Bmp {
    var header: FileHeader
    var infoHeader: InfoHeader
    var data: seq<byte>

    constructor ()
      ensures header == DefaultFileHeader && infoHeader == DefaultInfoHeader && data == []
    {
      header := DefaultFileHeader;
      infoHeader := DefaultInfoHeader;
      data := [];
    }

    function Contents(): Image
      reads this
    {
      Image(header, infoHeader, data)
    }

    /** Reads the headers over the current fields, checks the magic, sizes the
        pixel buffer and reads the pixels from the declared offset. */
    method Load(file: Option<seq<byte>>) returns (status: LoadStatus)
      modifies this
      ensures (status, Contents()) == LoadImage(old(Contents()), file)
    {
      if file.None? {
        return CannotOpen;
      }
      var f := file.value;
      var bytes := Overlay(f, SerializeHeaders(header, infoHeader));
      header := ParseFileHeader(bytes[..FileHeaderSize]);
      infoHeader := ParseInfoHeader(bytes[FileHeaderSize..]);
      if header.fileType != BmpMagic {
        return NotBitmap;
      }
      if !ValidDimensions(infoHeader) {
        return BadDimensions;
      }
      var n := infoHeader.width * infoHeader.height * 3;
      data := Resize(data, n);
      if |f| >= HeadersSize {
        data := ReadInto(data, Available(f, header.offsetData, n));
      }
      return Loaded;
    }

    /** Writes both headers and the pixel buffer; None when the file cannot be
        opened for writing. */
    method Save(canOpen: bool) returns (written: Option<seq<byte>>)
      ensures canOpen <==> written.Some?
      ensures written.Some? ==> |written.value| == HeadersSize + |data|
      ensures written.Some? ==> written.value[..HeadersSize] == SerializeHeaders(header, infoHeader)
      ensures written.Some? ==> written.value[HeadersSize..] == data
    {
      if !canOpen {
        return None;
      }
      written := Some(Encode(Contents()));
    }
  }
}
