/** PNG images: what the canvas writes and what the reader makes of it. */
module Png {
  import opened Bytes
  import opened Wrappers
  import opened Rows

  const WORD: nat := 0x1_0000_0000

  const SIGNATURE: ByteString := [0x89, 0x50, 0x4e, 0x47, 0x0d, 0x0a, 0x1a, 0x0a]

  const HEADER := Ascii("IHDR")
  const DATA := Ascii("IDAT")
  const END := Ascii("IEND")

  /** Eight bits a channel, with an alpha channel, not interlaced. */
  const FORMAT: ByteString := [8, 6, 0, 0, 0]

  datatype Error =
    | InvalidSignature
    | Truncated
    | UnsupportedFormat
    | InvalidCompression
    | InvalidSize
    | UnsupportedFilter

  datatype Picture = Picture(width: nat, height: nat, pixels: ByteString)

  /** The compressor, its inverse as far as it has one, and the checksum. */
  datatype Codec = Codec(compress: ByteString -> ByteString, decompress: ByteString -> Option<ByteString>,
                         crc: ByteString -> nat)

  // ----- Numbers -----

  function Word(n: nat): (bytes: ByteString)
    requires n < WORD
    ensures |bytes| == 4
  {
    var upper := n / 256;
    var half := upper / 256;
    [(half / 256) as Byte, (half % 256) as Byte, (upper % 256) as Byte, (n % 256) as Byte]
  }

  function WordAt(bytes: ByteString): (n: nat)
    requires |bytes| == 4
    ensures n < WORD
  {
    ((bytes[0] as nat * 256 + bytes[1] as nat) * 256 + bytes[2] as nat) * 256 + bytes[3] as nat
  }

  lemma {:induction false} WordRoundTrip(n: nat)
    requires n < WORD
    ensures WordAt(Word(n)) == n
  {
  }

  /** Four bytes stand for a number with the most significant one first. */
  lemma WordMeans(n: nat, bytes: ByteString)
    requires n < 0x1_0000_0000 && |bytes| == 4
    ensures WordAt(bytes) == bytes[0] as nat * 0x100_0000 + bytes[1] as nat * 0x1_0000 + bytes[2] as nat * 0x100
                             + bytes[3] as nat
    ensures bytes == Word(n) <==> WordAt(bytes) == n
  {
    WordRoundTrip(n);
    WordAgain(bytes);
    hide Word;
  }

  lemma WordAgain(bytes: ByteString)
    requires |bytes| == 4
    ensures Word(WordAt(bytes)) == bytes
  {
    var half := bytes[0] as nat * 256 + bytes[1] as nat;
    var upper := half * 256 + bytes[2] as nat;
    LastByte(bytes[0] as nat, bytes[1]);
    LastByte(half, bytes[2]);
    LastByte(upper, bytes[3]);
  }

  lemma LastByte(n: nat, b: Byte)
    ensures (n * 256 + b as nat) / 256 == n && (n * 256 + b as nat) % 256 == b as nat
  {
  }

  // ----- Writing -----

  /** The first n rows, each behind its filter byte. */
  function Raw(pixels: ByteString, rowSize: nat, n: nat): ByteString
    requires Start(rowSize, n) <= |pixels|
  {
    if n == 0 then []
    else
      StartStep(rowSize, n - 1);
      Raw(pixels, rowSize, n - 1) + [0] + pixels[Start(rowSize, n - 1)..Start(rowSize, n)]
  }

  function Chunk(kind: ByteString, data: ByteString, crc: ByteString -> nat): ByteString
    requires |kind| == 4 && |data| < WORD
  {
    Word(|data|) + (kind + data) + Word(crc(kind + data) % WORD)
  }

  function HeaderData(width: nat, height: nat): (data: ByteString)
    requires width < WORD && height < WORD
    ensures |data| == 13
  {
    Word(width) + Word(height) + FORMAT
  }

  function Encoded(width: nat, height: nat, compressed: ByteString, crc: ByteString -> nat): ByteString
    requires width < WORD && height < WORD && |compressed| < WORD
  {
    SIGNATURE + (Chunk(HEADER, HeaderData(width, height), crc) + (Chunk(DATA, compressed, crc) + Chunk(END, [], crc)))
  }

  /** The file byte by byte: the signature and three chunks, each with its length in front and its sum behind. */
  lemma EncodedMeans(width: nat, height: nat, compressed: ByteString, crc: ByteString -> nat)
    requires width < WORD && height < WORD && |compressed| < WORD
    ensures WORD == 0x1_0000_0000
    ensures var header := Ascii("IHDR") + Word(width) + Word(height) + [8, 6, 0, 0, 0];
            var data := Ascii("IDAT") + compressed;
            Encoded(width, height, compressed, crc) ==
            [0x89] + Ascii("PNG") + [13, 10, 26, 10]
            + [0, 0, 0, 13] + header + Word(crc(header) % 0x1_0000_0000)
            + Word(|compressed|) + data + Word(crc(data) % 0x1_0000_0000)
            + [0, 0, 0, 0] + Ascii("IEND") + Word(crc(Ascii("IEND")) % 0x1_0000_0000)
  {
    hide Word, Ascii, SIGNATURE;
    FixedParts();
    var header, data := Ascii("IHDR") + Word(width) + Word(height) + [8, 6, 0, 0, 0], Ascii("IDAT") + compressed;
    assert HEADER + HeaderData(width, height) == header && Ascii("IEND") + [] == Ascii("IEND");
  }

  lemma FixedParts()
    ensures SIGNATURE == [0x89] + Ascii("PNG") + [13, 10, 26, 10]
    ensures Word(13) == [0, 0, 0, 13] && Word(0) == [0, 0, 0, 0]
  {
  }

  class Canvas {
    const width: nat
    const height: nat
    const pixels: array<Byte>

    constructor (width: nat, height: nat, color: ByteString)
      requires |color| == 4
      ensures Valid() && this.width == width && this.height == height && fresh(pixels)
      ensures forall i | 0 <= i < pixels.Length :: pixels[i] == color[i % 4]
    {
      this.width, this.height := width, height;
      pixels := new Byte[Start(4 * width, height)](i requires 0 <= i => color[i % 4]);
    }

    predicate Valid() {
      pixels.Length == Start(4 * width, height)
    }

    /** Sets one pixel if it lies on the canvas. */
    method Set(x: int, y: int, color: ByteString)
      requires Valid() && |color| == 4
      modifies pixels
      ensures var inside := 0 <= x < width && 0 <= y < height;
              forall i | 0 <= i < pixels.Length ::
                pixels[i] == if inside && 0 <= i - (Start(4 * width, y) + 4 * x) < 4
                             then color[i - (Start(4 * width, y) + 4 * x)] else old(pixels[i])
    {
      if 0 <= x < width && 0 <= y < height {
        StartGrows(4 * width, y, height);
        var offset := Start(4 * width, y) + 4 * x;
        hide Start;
        for k := 0 to 4
          invariant forall i | 0 <= i < pixels.Length ::
                      pixels[i] == if 0 <= i - offset < k then color[i - offset] else old(pixels[i])
        {
          pixels[offset + k] := color[k];
        }
      }
    }

    /** The image file, unless it is too large for the format. */
    method Png(codec: Codec) returns (png: Option<ByteString>)
      requires Valid()
      ensures var raw := Raw(pixels[..], 4 * width, height);
              png == if width < WORD && height < WORD && |codec.compress(raw)| < WORD
                     then Some(Encoded(width, height, codec.compress(raw), codec.crc)) else None
    {
      var raw: ByteString := [];
      var rowSize := 4 * width;
      var row := 0;
      assert Start(rowSize, 0) == 0;
      while row < height
        invariant 0 <= row <= height && Start(rowSize, row) <= pixels.Length
        invariant raw == Raw(pixels[..], rowSize, row)
      {
        StartGrows(rowSize, row, height);
        StartStep(rowSize, row);
        hide Start;
        var start := Start(rowSize, row);
        raw := raw + [0];
        raw := raw + pixels[start..start + rowSize];
        assert pixels[..][start..start + rowSize] == pixels[start..start + rowSize];
        row := row + 1;
      }
      var compressed := codec.compress(raw);
      if width >= WORD || height >= WORD || |compressed| >= WORD {
        return None;
      }
      return Some(Encoded(width, height, compressed, codec.crc));
    }
  }

  // ----- Reading -----

  /** What has been read so far. */
  datatype Read = Read(width: nat, height: nat, compressed: ByteString)

  function Clip(bytes: ByteString, from: nat, to: nat): ByteString {
    if from >= |bytes| || from >= to then [] else bytes[from..if to < |bytes| then to else |bytes|]
  }

  function ReadHeader(data: ByteString): Result<(nat, nat), Error> {
    if |data| != 13 then Err(Truncated)
    else if data[8..] != FORMAT then Err(UnsupportedFormat)
    else Ok((WordAt(data[..4]), WordAt(data[4..8])))
  }

  /** Width and height, and the one format that is read. */
  lemma HeaderMeans(data: ByteString)
    ensures ReadHeader(data).Ok? <==> |data| == 13 && data[8..] == [8, 6, 0, 0, 0]
    ensures ReadHeader(data).Ok? ==>
              ReadHeader(data).value.0 == data[0] as nat * 0x100_0000 + data[1] as nat * 0x1_0000 +
                                          data[2] as nat * 0x100 + data[3] as nat
    ensures ReadHeader(data).Ok? ==>
              ReadHeader(data).value.1 == data[4] as nat * 0x100_0000 + data[5] as nat * 0x1_0000 +
                                          data[6] as nat * 0x100 + data[7] as nat
    ensures ReadHeader(data) == Err(UnsupportedFormat) <==> |data| == 13 && data[8..] != [8, 6, 0, 0, 0]
  {
    if |data| == 13 {
      WordMeans(0, data[..4]);
      WordMeans(0, data[4..8]);
    }
    hide WordAt;
  }

  /** Takes one chunk into account; unknown chunks are skipped. */
  function Take(read: Read, kind: ByteString, data: ByteString): Result<Read, Error> {
    if kind == HEADER then
      match ReadHeader(data)
      case Err(e) => Err(e)
      case Ok((width, height)) => Ok(read.(width := width, height := height))
    else if kind == DATA then Ok(read.(compressed := read.compressed + data))
    else Ok(read)
  }

  /** The chunks from an offset on, up to the end chunk or the end of the file. */
  function Chunks(content: ByteString, offset: nat, read: Read): Result<Read, Error>
    decreases |content| - offset
  {
    if offset >= |content| then Ok(read)
    else if offset + 4 > |content| then Err(Truncated)
    else
      var length := WordAt(content[offset..offset + 4]);
      var kind := Clip(content, offset + 4, offset + 8);
      match Take(read, kind, Clip(content, offset + 8, offset + 8 + length))
      case Err(e) => Err(e)
      case Ok(next) => if kind == END then Ok(next) else Chunks(content, offset + 12 + length, next)
  }

  /** The pixels of the first n rows, if none of them is filtered. */
  function Unraw(raw: ByteString, rowSize: nat, n: nat): Option<ByteString>
    requires Start(rowSize + 1, n) <= |raw|
  {
    if n == 0 then Some([])
    else
      StartStep(rowSize + 1, n - 1);
      var start := Start(rowSize + 1, n - 1);
      match Unraw(raw, rowSize, n - 1)
      case None => None
      case Some(pixels) => if raw[start] != 0 then None else Some(pixels + raw[start + 1..start + rowSize + 1])
  }

  /** A row as it is read: a zero in front of its pixels. */
  predicate Unfiltered(raw: ByteString, rowSize: nat, y: nat) {
    Start(rowSize + 1, y) < |raw| && raw[Start(rowSize + 1, y)] == 0
  }

  /** Rows can be read exactly when none of them is filtered. */
  lemma {:induction false} UnrawMeans(raw: ByteString, rowSize: nat, n: nat)
    requires Start(rowSize + 1, n) <= |raw|
    ensures Unraw(raw, rowSize, n).Some? <==>
            forall y | 0 <= y < n :: Unfiltered(raw, rowSize, y)
  {
    if n > 0 {
      StartStep(rowSize + 1, n - 1);
      UnrawMeans(raw, rowSize, n - 1);
      assert Unfiltered(raw, rowSize, n - 1) <==> raw[Start(rowSize + 1, n - 1)] == 0;
    }
  }

  /** The first check of a file is that of its signature. */
  lemma SignatureMeans(content: ByteString, codec: Codec)
    requires !([0x89] + Ascii("PNG") + [13, 10, 26, 10] <= content)
    ensures Decoded(content, codec) == Err(InvalidSignature)
  {
    assert SIGNATURE == [0x89] + Ascii("PNG") + [13, 10, 26, 10];
  }

  function Decoded(content: ByteString, codec: Codec): Result<Picture, Error> {
    if !(SIGNATURE <= content) then Err(InvalidSignature)
    else
      match Chunks(content, 8, Read(0, 0, []))
      case Err(e) => Err(e)
      case Ok(read) =>
        match codec.decompress(read.compressed)
        case None => Err(InvalidCompression)
        case Some(raw) =>
          if |raw| != Start(4 * read.width + 1, read.height) then Err(InvalidSize)
          else
            match Unraw(raw, 4 * read.width, read.height)
            case None => Err(UnsupportedFilter)
            case Some(pixels) => Ok(Picture(read.width, read.height, pixels))
  }

  method PngPixels(content: ByteString, codec: Codec) returns (r: Result<Picture, Error>)
    ensures r == Decoded(content, codec)
  {
    hide Chunks, Unraw, Start;
    if !(SIGNATURE <= content) {
      return Err(InvalidSignature);
    }
    var chunks := ReadChunks(content);
    if chunks.Err? {
      return Err(chunks.error);
    }
    var read := chunks.value;
    var raw := codec.decompress(read.compressed);
    if raw.None? {
      return Err(InvalidCompression);
    }
    if |raw.value| != Start(4 * read.width + 1, read.height) {
      return Err(InvalidSize);
    }
    var pixels := ReadRows(raw.value, 4 * read.width, read.height);
    return if pixels.Some? then Ok(Picture(read.width, read.height, pixels.value)) else Err(UnsupportedFilter);
  }

  method ReadChunks(content: ByteString) returns (r: Result<Read, Error>)
    ensures r == Chunks(content, 8, Read(0, 0, []))
  {
    hide WordAt, Take, Clip;
    var offset := 8;
    var read := Read(0, 0, []);
    while offset < |content|
      invariant Chunks(content, offset, read) == Chunks(content, 8, Read(0, 0, []))
      decreases |content| - offset
    {
      if offset + 4 > |content| {
        return Err(Truncated);
      }
      var length := WordAt(content[offset..offset + 4]);
      var kind := Clip(content, offset + 4, offset + 8);
      var data := Clip(content, offset + 8, offset + 8 + length);
      var next := Take(read, kind, data);
      if next.Err? {
        return Err(next.error);
      }
      if kind == END {
        return Ok(next.value);
      }
      offset, read := offset + 12 + length, next.value;
    }
    return Ok(read);
  }

  method ReadRows(raw: ByteString, rowSize: nat, height: nat) returns (pixels: Option<ByteString>)
    requires Start(rowSize + 1, height) <= |raw|
    ensures pixels == Unraw(raw, rowSize, height)
  {
    var read: ByteString := [];
    var row := 0;
    assert Start(rowSize + 1, 0) == 0;
    while row < height
      invariant 0 <= row <= height && Start(rowSize + 1, row) <= |raw|
      invariant Unraw(raw, rowSize, row) == Some(read)
    {
      StartGrows(rowSize + 1, row, height);
      StartStep(rowSize + 1, row);
      hide Start;
      var start := Start(rowSize + 1, row);
      if raw[start] != 0 {
        FilteredRow(raw, rowSize, row + 1, height);
        return None;
      }
      read := read + raw[start + 1..start + rowSize + 1];
      row := row + 1;
    }
    return Some(read);
  }

  lemma {:induction false} FilteredRow(raw: ByteString, rowSize: nat, n: nat, height: nat)
    requires n <= height && Start(rowSize + 1, n) <= |raw| && Start(rowSize + 1, height) <= |raw|
    requires Unraw(raw, rowSize, n).None?
    ensures Unraw(raw, rowSize, height).None?
    decreases height - n
  {
    if n < height {
      StartStep(rowSize + 1, n);
      if n + 1 < height {
        StartGrows(rowSize + 1, n + 1, height);
      }
      FilteredRow(raw, rowSize, n + 1, height);
    }
  }

  // ----- Reading back what was written -----

  lemma {:induction false} RawLength(pixels: ByteString, rowSize: nat, n: nat)
    requires Start(rowSize, n) <= |pixels|
    ensures |Raw(pixels, rowSize, n)| == Start(rowSize + 1, n)
  {
    if n > 0 {
      StartStep(rowSize, n - 1);
      StartStep(rowSize + 1, n - 1);
      hide Start;
      RawLength(pixels, rowSize, n - 1);
    }
  }

  /** Reading the raw bytes of n rows, whatever follows them, gives the pixels back. */
  lemma {:induction false} RawRoundTrip(pixels: ByteString, rowSize: nat, n: nat, rest: ByteString)
    requires Start(rowSize, n) <= |pixels|
    ensures Start(rowSize + 1, n) <= |Raw(pixels, rowSize, n) + rest|
    ensures Unraw(Raw(pixels, rowSize, n) + rest, rowSize, n) == Some(pixels[..Start(rowSize, n)])
  {
    hide *;
    RawLength(pixels, rowSize, n);
    if n == 0 {
      NoRows(pixels, rowSize, rest);
    } else {
      StartStep(rowSize, n - 1);
      StartStep(rowSize + 1, n - 1);
      RawLength(pixels, rowSize, n - 1);
      var row := pixels[Start(rowSize, n - 1)..Start(rowSize, n)];
      RawRoundTrip(pixels, rowSize, n - 1, [0] + row + rest);
      RawNext(pixels, rowSize, n - 1, rest);
      UnrawNext(Raw(pixels, rowSize, n) + rest, rowSize, n - 1);
      assert pixels[..Start(rowSize, n - 1)] + row == pixels[..Start(rowSize, n)];
    }
  }

  /** In front of row number y stands a zero, and behind it the pixels of that row. */
  lemma {:induction false} RawMeans(pixels: ByteString, rowSize: nat, n: nat, y: nat, k: nat)
    requires rowSize * n <= |pixels| && y < n && k < rowSize
    ensures Start(rowSize, n) == rowSize * n && |Raw(pixels, rowSize, n)| == (rowSize + 1) * n
    ensures (rowSize + 1) * y + 1 + k < (rowSize + 1) * n && rowSize * y + k < |pixels|
    ensures Raw(pixels, rowSize, n)[(rowSize + 1) * y] == 0
    ensures Raw(pixels, rowSize, n)[(rowSize + 1) * y + 1 + k] == pixels[rowSize * y + k]
  {
    hide Start, Raw;
    StartMeans(rowSize, n);
    StartMeans(rowSize, y);
    StartMeans(rowSize + 1, n);
    StartMeans(rowSize + 1, y);
    RawLength(pixels, rowSize, n);
    StartGrows(rowSize + 1, y, n);
    StartGrows(rowSize, y, n);
    RawAt(pixels, rowSize, n, y, k);
  }

  lemma {:induction false} RawAt(pixels: ByteString, rowSize: nat, n: nat, y: nat, k: nat)
    requires Start(rowSize, n) <= |pixels| && y < n && k < rowSize
    ensures Start(rowSize + 1, y) + k + 1 < |Raw(pixels, rowSize, n)| && Start(rowSize, y) + k < |pixels|
    ensures Raw(pixels, rowSize, n)[Start(rowSize + 1, y)] == 0
    ensures Raw(pixels, rowSize, n)[Start(rowSize + 1, y) + 1 + k] == pixels[Start(rowSize, y) + k]
  {
    hide Start, Raw;
    StartStep(rowSize, n - 1);
    RawLength(pixels, rowSize, n - 1);
    RawNext(pixels, rowSize, n - 1, []);
    var before, raw, row := Raw(pixels, rowSize, n - 1), Raw(pixels, rowSize, n),
        pixels[Start(rowSize, n - 1)..Start(rowSize, n)];
    assert raw + [] == raw && raw == before + ([0] + row + []);
    if y < n - 1 {
      RawAt(pixels, rowSize, n - 1, y, k);
    } else {
      assert raw[|before| + 1 + k] == row[k];
    }
  }

  lemma {:induction false} NoRows(pixels: ByteString, rowSize: nat, rest: ByteString)
    ensures Start(rowSize, 0) == 0 && Start(rowSize + 1, 0) == 0
    ensures Unraw(Raw(pixels, rowSize, 0) + rest, rowSize, 0) == Some(pixels[..0])
  {
  }

  /** One row more of raw bytes: behind the rows before, a filter byte and the row. */
  lemma {:induction false} RawNext(pixels: ByteString, rowSize: nat, n: nat, rest: ByteString)
    requires Start(rowSize, n + 1) <= |pixels| && Start(rowSize, n + 1) == Start(rowSize, n) + rowSize
    requires |Raw(pixels, rowSize, n)| == Start(rowSize + 1, n)
    ensures var row, raw := pixels[Start(rowSize, n)..Start(rowSize, n + 1)], Raw(pixels, rowSize, n + 1) + rest;
            var start := Start(rowSize + 1, n);
            && raw == Raw(pixels, rowSize, n) + ([0] + row + rest)
            && start + rowSize + 1 <= |raw| && raw[start] == 0 && raw[start + 1..start + rowSize + 1] == row
  {
    var before, row := Raw(pixels, rowSize, n), pixels[Start(rowSize, n)..Start(rowSize, n + 1)];
    assert Raw(pixels, rowSize, n + 1) + rest == before + ([0] + row + rest);
    hide Start, Raw;
    RowAt(before, row, rest);
  }

  lemma {:induction false} UnrawNext(raw: ByteString, rowSize: nat, n: nat)
    requires Start(rowSize + 1, n + 1) <= |raw| && Start(rowSize + 1, n + 1) == Start(rowSize + 1, n) + (rowSize + 1)
    requires raw[Start(rowSize + 1, n)] == 0 && Unraw(raw, rowSize, n).Some?
    ensures var start := Start(rowSize + 1, n);
            Unraw(raw, rowSize, n + 1) == Some(Unraw(raw, rowSize, n).value + raw[start + 1..start + rowSize + 1])
  {
    hide Start;
  }

  lemma {:induction false} RowAt(before: ByteString, row: ByteString, rest: ByteString)
    ensures var raw := before + ([0] + row + rest);
            raw[|before|] == 0 && raw[|before| + 1..|before| + |row| + 1] == row
  {
  }

  /** Reading on from a chunk: its kind and data are taken, then what follows it. */
  lemma {:induction false} ChunkRead(before: ByteString, kind: ByteString, data: ByteString, crc: ByteString -> nat,
                                     rest: ByteString,
                                     read: Read)
    requires |kind| == 4 && |data| < WORD
    ensures Chunks(before + (Chunk(kind, data, crc) + rest), |before|, read) ==
            match Take(read, kind, data)
            case Err(e) => Err(e)
            case Ok(next) =>
              if kind == END then Ok(next)
              else Chunks(before + (Chunk(kind, data, crc) + rest), |before| + 12 + |data|, next)
  {
    hide *;
    ChunkParts(before, kind, data, crc, rest);
    WordRoundTrip(|data|);
    ChunkStep(before + (Chunk(kind, data, crc) + rest), |before|, kind, data, read);
  }

  lemma {:induction false} ChunkStep(content: ByteString, at: nat, kind: ByteString, data: ByteString, read: Read)
    requires |content| >= at + 12 + |data| && WordAt(content[at..at + 4]) == |data|
    requires Clip(content, at + 4, at + 8) == kind && Clip(content, at + 8, at + 8 + |data|) == data
    ensures Chunks(content, at, read) ==
            match Take(read, kind, data)
            case Err(e) => Err(e)
            case Ok(next) => if kind == END then Ok(next) else Chunks(content, at + 12 + |data|, next)
  {
    hide WordAt, Take, Clip;
  }

  lemma {:induction false} ChunkParts(before: ByteString, kind: ByteString, data: ByteString, crc: ByteString -> nat,
                                      rest: ByteString)
    requires |kind| == 4 && |data| < WORD
    ensures var content, at := before + (Chunk(kind, data, crc) + rest), |before|;
            && |content| >= at + 12 + |data| && content[at..at + 4] == Word(|data|)
            && Clip(content, at + 4, at + 8) == kind && Clip(content, at + 8, at + 8 + |data|) == data
  {
    hide Word;
    var content, at := before + (Chunk(kind, data, crc) + rest), |before|;
    var chunk := Chunk(kind, data, crc);
    assert chunk[..4] == Word(|data|) && chunk[4..8] == kind && chunk[8..8 + |data|] == data;
    assert content[at..at + |chunk|] == chunk;
    assert forall i, j | 0 <= i <= j <= |chunk| :: content[at + i..at + j] == chunk[i..j];
  }

  /** The reader gives back exactly the picture that was written, for every picture that fits the format. */
  lemma {:induction false} PngRoundTrip(width: nat, height: nat, pixels: ByteString, codec: Codec)
    requires width < WORD && height < WORD && |pixels| == Start(4 * width, height)
    requires var raw := Raw(pixels, 4 * width, height);
             |codec.compress(raw)| < WORD && codec.decompress(codec.compress(raw)) == Some(raw)
    ensures Decoded(Encoded(width, height, codec.compress(Raw(pixels, 4 * width, height)), codec.crc), codec) ==
            Ok(Picture(width, height, pixels))
  {
    hide *;
    var raw := Raw(pixels, 4 * width, height);
    var compressed := codec.compress(raw);
    EncodedRead(width, height, compressed, codec.crc);
    RawLength(pixels, 4 * width, height);
    RawRoundTrip(pixels, 4 * width, height, []);
    assert raw + [] == raw && pixels[..|pixels|] == pixels;
    DecodedFrom(width, height, pixels, raw, codec);
  }

  lemma {:induction false} DecodedFrom(width: nat, height: nat, pixels: ByteString, raw: ByteString, codec: Codec)
    requires width < WORD && height < WORD && |codec.compress(raw)| < WORD
    requires codec.decompress(codec.compress(raw)) == Some(raw)
    requires var content := Encoded(width, height, codec.compress(raw), codec.crc);
             SIGNATURE <= content && Chunks(content, 8, Read(0, 0, [])) == Ok(Read(width, height, codec.compress(raw)))
    requires |raw| == Start(4 * width + 1, height) && Unraw(raw, 4 * width, height) == Some(pixels)
    ensures Decoded(Encoded(width, height, codec.compress(raw), codec.crc), codec) == Ok(Picture(width, height, pixels))
  {
    hide Encoded, Chunks, Start, Unraw;
  }

  lemma {:induction false} EncodedRead(width: nat, height: nat, compressed: ByteString, crc: ByteString -> nat)
    requires width < WORD && height < WORD && |compressed| < WORD
    ensures var content := Encoded(width, height, compressed, crc);
            SIGNATURE <= content && Chunks(content, 8, Read(0, 0, [])) == Ok(Read(width, height, compressed))
  {
    var content := Encoded(width, height, compressed, crc);
    var header, data, end := Chunk(HEADER, HeaderData(width, height), crc), Chunk(DATA, compressed, crc),
        Chunk(END, [], crc);
    assert content == SIGNATURE + header + data + end && |SIGNATURE| == 8;
    assert |HEADER| == |DATA| == |END| == 4 && |HeaderData(width, height)| < WORD;
    hide *;
    FourParts(SIGNATURE, header, data, end);
    ChunkLength(HEADER, HeaderData(width, height), crc);
    ChunkLength(DATA, compressed, crc);
    TakeHeader(width, height);
    TakeRest(Read(width, height, []), compressed);
    ChunkRead(SIGNATURE, HEADER, HeaderData(width, height), crc, data + end, Read(0, 0, []));
    ChunkRead(SIGNATURE + header, DATA, compressed, crc, end, Read(width, height, []));
    ChunkRead(SIGNATURE + header + data, END, [], crc, [], Read(width, height, compressed));
  }

  lemma {:induction false} FourParts(a: ByteString, b: ByteString, c: ByteString, d: ByteString)
    ensures a + b + c + d == a + (b + (c + d)) == (a + b) + (c + d) == (a + b + c) + (d + [])
    ensures a <= a + b + c + d
  {
  }

  lemma {:induction false} ChunkLength(kind: ByteString, data: ByteString, crc: ByteString -> nat)
    requires |kind| == 4 && |data| < WORD
    ensures |Chunk(kind, data, crc)| == 12 + |data|
  {
    hide Word;
  }

  lemma {:induction false} TakeHeader(width: nat, height: nat)
    requires width < WORD && height < WORD
    ensures Take(Read(0, 0, []), HEADER, HeaderData(width, height)) == Ok(Read(width, height, []))
  {
    var data := HeaderData(width, height);
    WordRoundTrip(width);
    WordRoundTrip(height);
    hide Word, WordAt;
    assert data[..4] == Word(width) && data[4..8] == Word(height) && data[8..] == FORMAT;
  }

  lemma {:induction false} TakeRest(read: Read, compressed: ByteString)
    requires read.compressed == []
    ensures DATA != HEADER && END != HEADER && END != DATA && HEADER != END && DATA != END
    ensures Take(read, DATA, compressed) == Ok(read.(compressed := compressed))
    ensures Take(read.(compressed := compressed), END, []) == Ok(read.(compressed := compressed))
  {
    assert DATA[1] != HEADER[1] && END[1] != HEADER[1] && END[1] != DATA[1];
    assert [] + compressed == compressed;
  }
}
