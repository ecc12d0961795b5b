/** Reading and writing WAVE files (dsp/waveIo.cpp:38-355, 414-466) on a little-endian machine.

    A file is its bytes and a position; its operations succeed. The values of the sample data are
    32-bit words that are copied as they are, which is what the code does with 32-bit float. */
module WaveIo {
  import opened DivMod
  import opened Sequences

  type Byte = x: int | 0 <= x < 256
  type Word = x: int | 0 <= x < 0x1_0000_0000

  // Numbers as bytes.

  function Le16(x: int): (r: seq<Byte>)
    ensures |r| == 2
  {
    [x % 256, x / 256 % 256]
  }

  function Le32(x: int): (r: seq<Byte>)
    ensures |r| == 4
  {
    [x % 256, x / 256 % 256, x / 256 / 256 % 256, x / 256 / 256 / 256 % 256]
  }

  function FromLe16(b: seq<Byte>): (r: int)
    requires |b| == 2
    ensures 0 <= r < 0x1_0000
  {
    b[0] as int + 256 * b[1] as int
  }

  function FromLe32(b: seq<Byte>): (r: Word)
    requires |b| == 4
  {
    b[0] as int + 256 * (b[1] as int + 256 * (b[2] as int + 256 * b[3] as int))
  }

  lemma Le16RoundTrip(x: int)
    ensures FromLe16(Le16(x)) == x % 0x1_0000
  {
  }

  lemma Le32RoundTrip(x: int)
    ensures FromLe32(Le32(x)) == x % 0x1_0000_0000
  {
  }

  // Chunk identifiers in the order of the file.
  const RIFF: seq<Byte> := [0x52, 0x49, 0x46, 0x46]
  const WAVE: seq<Byte> := [0x57, 0x41, 0x56, 0x45]
  const FMT: seq<Byte> := [0x66, 0x6D, 0x74, 0x20]
  const FACT: seq<Byte> := [0x66, 0x61, 0x63, 0x74]
  const DATA: seq<Byte> := [0x64, 0x61, 0x74, 0x61]

  const WAVE_FORMAT_PCM: int := 1
  const WAVE_FORMAT_IEEE_FLOAT: int := 3

  /** sampleRate is a double in the source, of which the file keeps the integer part. */
  datatype WaveInfo = WaveInfo(
    numChannels: Word, numSamples: Word, sampleRate: Word, isFloatingPoint: bool, bitsPerSample: Byte)
  {
    predicate IsValid() {
      numChannels > 0 && sampleRate > 0
    }
  }

  const NO_INFO := WaveInfo(0, 0, 0, false, 0)

  /** sampleBytes, computed with 32 bits. */
  function SampleBytes(info: WaveInfo): Word {
    (info.numChannels * info.numSamples * (info.bitsPerSample / 8)) % 0x1_0000_0000
  }

  function WaveChunkSize(info: WaveInfo): int {
    16 + if info.bitsPerSample > 16 then 2 else 0
  }

  function BlockAlign(info: WaveInfo): int {
    (info.bitsPerSample * info.numChannels) % 0x1_0000_0000 / 8 % 0x1_0000
  }

  function RiffChunk(info: WaveInfo): seq<Byte> {
    var subchunksSize := 8 + (SampleBytes(info) + 1) / 2 * 2 + 12 + WaveChunkSize(info);
    RIFF + (Le32(subchunksSize) + WAVE)
  }

  function FormatFields(info: WaveInfo): (r: seq<Byte>)
    ensures |r| == 16
  {
    Le16(if info.isFloatingPoint then WAVE_FORMAT_IEEE_FLOAT else WAVE_FORMAT_PCM)
    + (Le16(info.numChannels)
       + (Le32(info.sampleRate)
          + (Le32(BlockAlign(info) * info.sampleRate)
             + (Le16(BlockAlign(info))
                + Le16(info.bitsPerSample)))))
  }

  function FormatChunk(info: WaveInfo): seq<Byte> {
    FMT + (Le32(WaveChunkSize(info)) + (FormatFields(info) + if info.bitsPerSample > 16 then Le16(0) else []))
  }

  function FactChunk(info: WaveInfo): seq<Byte> {
    if info.bitsPerSample > 16 || info.isFloatingPoint then FACT + (Le32(4) + Le32(info.numSamples)) else []
  }

  function DataChunkHeader(info: WaveInfo): (r: seq<Byte>)
    ensures |r| == 8
  {
    DATA + Le32(SampleBytes(info))
  }

  /** The bytes before the sample data. */
  function Header(info: WaveInfo): seq<Byte> {
    RiffChunk(info) + (FormatChunk(info) + (FactChunk(info) + DataChunkHeader(info)))
  }

  /** A header keeps its length when the number of samples changes, so rewriting it later never
      moves the data; it is 58 bytes long for 32-bit float. */
  lemma HeaderLength(info: WaveInfo, samples: Word)
    ensures |Header(info.(numSamples := samples))| == |Header(info)|
    ensures info.isFloatingPoint && info.bitsPerSample == 32 ==> |Header(info)| == 58
    ensures !info.isFloatingPoint && info.bitsPerSample == 16 ==> |Header(info)| == 44
  {
  }

  // Files.

  /** What fread gets. */
  function ReadAt(bytes: seq<Byte>, pos: nat, count: nat): (r: seq<Byte>)
    ensures |r| <= count
  {
    if pos + count <= |bytes| then bytes[pos..pos + count] else if pos <= |bytes| then bytes[pos..] else []
  }

  function Overwritten(bytes: seq<Byte>, pos: nat, data: seq<Byte>): (r: seq<Byte>)
    requires pos <= |bytes|
  {
    bytes[..pos] + data + if pos + |data| <= |bytes| then bytes[pos + |data|..] else []
  }

  lemma OverwriteTwice(bytes: seq<Byte>, pos: nat, a: seq<Byte>, b: seq<Byte>)
    requires pos <= |bytes|
    ensures Overwritten(Overwritten(bytes, pos, a), pos + |a|, b) == Overwritten(bytes, pos, a + b)
  {
  }

  class File {
    var bytes: seq<Byte>
    var pos: nat

    constructor ()
      ensures bytes == [] && pos == 0
    {
      bytes, pos := [], 0;
    }

    method SeekTo(target: nat)
      modifies this
      ensures bytes == old(bytes) && pos == target
    {
      pos := target;
    }

    /** fseek(SEEK_CUR): may go beyond the end, not before the start. */
    method Skip(offset: int) returns (ok: bool)
      modifies this
      ensures bytes == old(bytes)
      ensures ok == (old(pos) + offset >= 0) && pos == if ok then old(pos) + offset else old(pos)
    {
      ok := pos + offset >= 0;
      if ok {
        pos := pos + offset;
      }
    }

    method Read(count: nat) returns (data: seq<Byte>)
      modifies this
      ensures bytes == old(bytes) && data == ReadAt(bytes, old(pos), count) && pos == old(pos) + |data|
    {
      data := ReadAt(bytes, pos, count);
      pos := pos + |data|;
    }

    method Write(data: seq<Byte>)
      requires pos <= |bytes|
      modifies this
      ensures bytes == Overwritten(old(bytes), old(pos), data) && pos == old(pos) + |data| <= |bytes|
    {
      bytes := Overwritten(bytes, pos, data);
      pos := pos + |data|;
    }
  }

  // The header, written and read.

  method WriteWaveInfo(file: File, info: WaveInfo)
    modifies file
    ensures file.bytes == Overwritten(old(file.bytes), 0, Header(info)) && file.pos == |Header(info)|
  {
    hide Overwritten, Le16, Le32;
    var was := file.bytes;
    var subchunksSize := 8 + (SampleBytes(info) + 1) / 2 * 2;
    subchunksSize := subchunksSize + 12;
    var needsFactChunk := info.bitsPerSample > 16 || info.isFloatingPoint;
    var waveChunkSize := 16 + if info.bitsPerSample > 16 then 2 else 0;
    subchunksSize := subchunksSize + waveChunkSize;
    file.SeekTo(0);

    assert Overwritten(was, 0, []) == was by {
      OverwrittenByNothing(was);
    }
    HeaderInOrder(info);
    ghost var done := WriteOn(file, was, [], RIFF + Le32(subchunksSize));
    done := WriteOn(file, was, done, WAVE);
    done := WriteOn(file, was, done, FMT + Le32(waveChunkSize));
    done := WriteOn(file, was, done, FormatFields(info));
    if info.bitsPerSample > 16 {
      done := WriteOn(file, was, done, Le16(0));
    }
    if needsFactChunk {
      done := WriteOn(file, was, done, FACT + Le32(4));
      done := WriteOn(file, was, done, Le32(info.numSamples));
    }
    done := WriteOn(file, was, done, DATA + Le32(SampleBytes(info)));
  }

  lemma OverwrittenByNothing(bytes: seq<Byte>)
    ensures Overwritten(bytes, 0, []) == bytes
  {
  }

  lemma Regrouped(a: seq<Byte>, b: seq<Byte>, c: seq<Byte>, d: seq<Byte>, e: seq<Byte>, f: seq<Byte>, g: seq<Byte>)
    ensures [] + (a + b) + c + (d + e) + f + g == a + (b + c) + (d + (e + (f + g)))
  {
  }

  lemma AppendChunks(start: seq<Byte>, a: seq<Byte>, b: seq<Byte>, c: seq<Byte>, d: seq<Byte>)
    ensures start + (a + b) + c + d == start + (a + (b + c) + d)
  {
  }

  /** The header in the order of its writes. */
  lemma HeaderInOrder(info: WaveInfo)
    ensures var start :=
              [] + (RIFF + Le32(8 + (SampleBytes(info) + 1) / 2 * 2 + 12 + WaveChunkSize(info))) + WAVE
              + (FMT + Le32(WaveChunkSize(info))) + FormatFields(info);
            var format := if info.bitsPerSample > 16 then start + Le16(0) else start;
            var fact := if info.bitsPerSample > 16 || info.isFloatingPoint
                        then format + (FACT + Le32(4)) + Le32(info.numSamples) else format;
            Header(info) == fact + (DATA + Le32(SampleBytes(info)))
  {
    hide Le16, Le32, FormatFields, SampleBytes, WaveChunkSize;
    var riffSize := Le32(8 + (SampleBytes(info) + 1) / 2 * 2 + 12 + WaveChunkSize(info));
    var start := [] + (RIFF + riffSize) + WAVE + (FMT + Le32(WaveChunkSize(info))) + FormatFields(info);
    var extension := if info.bitsPerSample > 16 then Le16(0) else [];
    Regrouped(RIFF, riffSize, WAVE, FMT, Le32(WaveChunkSize(info)), FormatFields(info), extension);
    assert start + [] == start;
    var fact := FactChunk(info);
    AppendChunks(start + extension, FACT, Le32(4), Le32(info.numSamples), DataChunkHeader(info));
    assert [] + DataChunkHeader(info) == DataChunkHeader(info);
    AppendAll(RiffChunk(info), FormatChunk(info), fact + DataChunkHeader(info));
  }

  /** fwrite, after what has been written since the start of the file. */
  method WriteOn(file: File, ghost was: seq<Byte>, ghost done: seq<Byte>, data: seq<Byte>)
    returns (ghost all: seq<Byte>)
    requires file.bytes == Overwritten(was, 0, done) && file.pos == |done|
    modifies file
    ensures all == done + data && file.bytes == Overwritten(was, 0, all) && file.pos == |all|
  {
    OverwriteTwice(was, 0, done, data);
    file.Write(data);
    all := done + data;
  }

  datatype Found = NotFound | Found(size: Word, pos: nat)

  /** The next chunk with the identifier, after skipping some bytes: its size and the position
      behind its header. */
  function FindChunk(bytes: seq<Byte>, pos: nat, skip: nat, id: seq<Byte>): Found
    decreases if pos <= |bytes| then |bytes| - pos else 0
  {
    var header := ReadAt(bytes, pos + skip, 8);
    if |header| != 8 then NotFound
    else if header[..4] == id then Found(FromLe32(header[4..]), pos + skip + 8)
    else FindChunk(bytes, pos + skip + 8, FromLe32(header[4..]), id)
  }

  method SeekToChunk(file: File, id: seq<Byte>) returns (found: bool, size: Word)
    modifies file
    ensures file.bytes == old(file.bytes)
    ensures found <==> FindChunk(file.bytes, old(file.pos), 0, id).Found?
    ensures found ==> FindChunk(file.bytes, old(file.pos), 0, id) == Found(size, file.pos)
  {
    hide FromLe32;
    size := 0;
    var skip: Word := 0;
    while true
      invariant file.bytes == old(file.bytes)
      invariant FindChunk(file.bytes, file.pos, skip, id) == FindChunk(file.bytes, old(file.pos), 0, id)
      decreases if file.pos <= |file.bytes| then |file.bytes| - file.pos else 0
    {
      var ok := file.Skip(skip);
      var header := file.Read(8);
      if |header| != 8 {
        return false, 0;
      }
      skip := FromLe32(header[4..]);
      if header[..4] == id {
        return true, skip;
      }
    }
  }

  /** What opening a file comes to: nothing that is understood, a division by a block alignment of
      zero, or the format and where the sample data start. */
  datatype Parsed = NotWave | DivisionByZero | Format(info: WaveInfo, dataPos: nat)

  function ParseInfo(bytes: seq<Byte>, pos: nat): Parsed {
    var riff := ReadAt(bytes, pos, 8);
    var kind := ReadAt(bytes, pos + 8, 4);
    if |riff| != 8 || riff[..4] != RIFF || kind != WAVE then NotWave
    else
      match FindChunk(bytes, pos + 12, 0, FMT)
      case NotFound => NotWave
      case Found(size, at) =>
        var fields := ReadAt(bytes, at, 16);
        if |fields| != 16 then NotWave
        else ParseData(fields, FindChunk(bytes, at + size, 0, DATA))
  }

  function ParseData(fields: seq<Byte>, data: Found): Parsed
    requires |fields| == 16
  {
    var (audioFormat, blockAlign) := (FromLe16(fields[0..2]), FromLe16(fields[12..14]));
    if (audioFormat != WAVE_FORMAT_PCM && audioFormat != WAVE_FORMAT_IEEE_FLOAT) || data == NotFound then NotWave
    else if blockAlign == 0 then DivisionByZero
    else
      Format(WaveInfo(FromLe16(fields[2..4]), FramesIn(data.size, blockAlign), FromLe32(fields[4..8]),
                      audioFormat == WAVE_FORMAT_IEEE_FLOAT, FromLe16(fields[14..16]) % 256), data.pos)
  }

  function FramesIn(size: Word, blockAlign: int): Word
    requires blockAlign > 0
  {
    SmallerQuotient(size, blockAlign);
    size / blockAlign
  }

  lemma SmallerQuotient(a: nat, n: int)
    requires n > 0
    ensures 0 <= a / n <= a
  {
    var q := a / n;
    assert a == q * n + a % n;
    MultiplesAreFar(q, n);
    ProductGrows(if q >= 0 then q else 0, n);
  }

  lemma ProductGrows(q: nat, n: nat)
    requires n > 0
    ensures q * n >= q
  {
    assert q * (n - 1) >= 0;
  }

  /** Returns the outcome for any file, the division by zero included. */
  method ReadInfo(file: File) returns (parsed: Parsed)
    modifies file
    ensures file.bytes == old(file.bytes)
    ensures parsed == ParseInfo(file.bytes, old(file.pos))
    ensures parsed.Format? ==> file.pos == parsed.dataPos
  {
    hide FindChunk, FromLe16, FromLe32;
    var riff := file.Read(8);
    if |riff| != 8 || riff[..4] != RIFF {
      return NotWave;
    }
    var kind := file.Read(4);
    if |kind| != 4 || kind != WAVE {
      return NotWave;
    }

    var found, size := SeekToChunk(file, FMT);
    if !found {
      return NotWave;
    }
    var fields := file.Read(16);
    if |fields| != 16 {
      return NotWave;
    }
    var ok := file.Skip(size as int - 16);
    var audioFormat := FromLe16(fields[0..2]);
    if audioFormat != WAVE_FORMAT_PCM && audioFormat != WAVE_FORMAT_IEEE_FLOAT {
      return NotWave;
    }

    found, size := SeekToChunk(file, DATA);
    if !found {
      return NotWave;
    }
    var blockAlign := FromLe16(fields[12..14]);
    if blockAlign == 0 {
      return DivisionByZero;
    }
    return Format(WaveInfo(FromLe16(fields[2..4]), FramesIn(size, blockAlign), FromLe32(fields[4..8]),
                           audioFormat == WAVE_FORMAT_IEEE_FLOAT, FromLe16(fields[14..16]) % 256), file.pos);
  }

  ghost predicate HasAt(bytes: seq<Byte>, pos: nat, piece: seq<Byte>) {
    pos + |piece| <= |bytes| && bytes[pos..pos + |piece|] == piece
  }

  lemma HasParts(bytes: seq<Byte>, pos: nat, a: seq<Byte>, b: seq<Byte>)
    requires HasAt(bytes, pos, a + b)
    ensures HasAt(bytes, pos, a) && HasAt(bytes, pos + |a|, b)
  {
    assert bytes[pos..pos + |a|] == (a + b)[..|a|] == a;
    assert bytes[pos + |a|..pos + |a| + |b|] == (a + b)[|a|..] == b;
  }

  lemma FindsHere(bytes: seq<Byte>, pos: nat, id: seq<Byte>, size: Word, wanted: seq<Byte>)
    requires |id| == 4 && HasAt(bytes, pos, id + Le32(size))
    ensures wanted == id ==> FindChunk(bytes, pos, 0, wanted) == Found(size, pos + 8)
    ensures wanted != id ==> FindChunk(bytes, pos, 0, wanted) == FindChunk(bytes, pos + 8, size, wanted)
  {
    hide Le32, FromLe32;
    Le32RoundTrip(size);
    var header := ReadAt(bytes, pos, 8);
    assert header == id + Le32(size);
    assert header[..4] == id && header[4..] == Le32(size);
  }

  lemma SkipFirst(bytes: seq<Byte>, pos: nat, skip: nat, id: seq<Byte>)
    ensures FindChunk(bytes, pos, skip, id) == FindChunk(bytes, pos + skip, 0, id)
  {
  }

  /** A sample frame fits the 16-bit field for its size. */
  ghost predicate FrameFits(info: WaveInfo) {
    && info.numChannels > 0 && info.bitsPerSample > 0 && info.bitsPerSample % 8 == 0
    && info.numChannels * (info.bitsPerSample / 8) < 0x1_0000
  }

  /** The sample data fit the 32-bit field for their size. */
  ghost predicate Fits(info: WaveInfo) {
    FrameFits(info) && info.numChannels * (info.bitsPerSample / 8) * info.numSamples < 0x1_0000_0000
  }

  lemma BlockAlignIs(info: WaveInfo)
    requires FrameFits(info)
    ensures BlockAlign(info) == info.numChannels * (info.bitsPerSample / 8) > 0
  {
    var b := info.bitsPerSample / 8;
    MultiplesAreFar(info.numChannels, b);
    EightBits(info.bitsPerSample, b, info.numChannels);
  }

  lemma SampleBytesAre(info: WaveInfo)
    requires FrameFits(info)
    ensures SampleBytes(info) == (BlockAlign(info) * info.numSamples) % 0x1_0000_0000
    ensures BlockAlign(info) > 0
    ensures Fits(info) <==> BlockAlign(info) * info.numSamples < 0x1_0000_0000
  {
    BlockAlignIs(info);
    Reorder(info.numChannels, info.numSamples, info.bitsPerSample / 8);
  }

  /** The reader computes the right number of samples exactly if their size fits. */
  lemma SizesRoundTrip(info: WaveInfo)
    requires FrameFits(info)
    ensures BlockAlign(info) > 0
    ensures FramesIn(SampleBytes(info), BlockAlign(info)) == info.numSamples <==> Fits(info)
  {
    SampleBytesAre(info);
    hide SampleBytes, BlockAlign, Fits, FrameFits, FramesIn;
    var align, n := BlockAlign(info), info.numSamples;
    if align * n < 0x1_0000_0000 {
      SmallProduct(align, n);
    } else {
      WrappedProduct(align, n);
    }
    FramesAre(SampleBytes(info), align);
  }

  lemma FramesAre(size: Word, align: int)
    requires align > 0
    ensures FramesIn(size, align) == size / align
  {
  }

  lemma SmallProduct(align: int, n: nat)
    requires align > 0 && 0 <= align * n < 0x1_0000_0000
    ensures (align * n) % 0x1_0000_0000 / align == n
  {
    QuotientOfProduct(align, n);
  }

  lemma WrappedProduct(align: int, n: nat)
    requires align > 0 && align * n >= 0x1_0000_0000
    ensures (align * n) % 0x1_0000_0000 / align < n
  {
    var size := (align * n) % 0x1_0000_0000;
    var q := size / align;
    assert size == q * align + size % align;
    MultiplesAreFar(q - n + 1, align);
    assert (q - n + 1) * align == q * align - align * n + align;
  }

  lemma QuotientOfProduct(a: int, b: int)
    requires a > 0
    ensures a * b / a == b
  {
    QuotientIs(a * b, b, 0, a);
  }

  lemma EightBits(bits: int, b: int, n: int)
    requires bits == 8 * b
    ensures bits * n == 8 * (n * b) && bits * n / 8 == n * b
  {
    assert bits * n == 8 * (n * b);
  }

  lemma Reorder(a: int, b: int, c: int)
    ensures a * b * c == a * c * b
  {
  }

  lemma FieldsRoundTrip(info: WaveInfo)
    ensures var fields := FormatFields(info);
      && FromLe16(fields[0..2]) == (if info.isFloatingPoint then WAVE_FORMAT_IEEE_FLOAT else WAVE_FORMAT_PCM)
      && FromLe16(fields[2..4]) == info.numChannels % 0x1_0000
      && FromLe32(fields[4..8]) == info.sampleRate
      && FromLe16(fields[12..14]) == BlockAlign(info)
      && FromLe16(fields[14..16]) == info.bitsPerSample
  {
    hide Le16, Le32, FromLe16, FromLe32, BlockAlign, FormatFields;
    BlockAlignFits(info);
    FieldSlices(info);
    Le16RoundTrip(if info.isFloatingPoint then WAVE_FORMAT_IEEE_FLOAT else WAVE_FORMAT_PCM);
    Le16RoundTrip(info.numChannels);
    Le32RoundTrip(info.sampleRate);
    Le16RoundTrip(BlockAlign(info));
    Le16RoundTrip(info.bitsPerSample);
  }

  lemma BlockAlignFits(info: WaveInfo)
    ensures 0 <= BlockAlign(info) < 0x1_0000
  {
  }

  lemma ChannelsFit(info: WaveInfo)
    requires FrameFits(info)
    ensures info.numChannels < 0x1_0000
  {
    ProductGrows(info.numChannels, info.bitsPerSample / 8);
  }

  lemma FieldSlices(info: WaveInfo)
    ensures var fields := FormatFields(info);
      && fields[0..2] == Le16(if info.isFloatingPoint then WAVE_FORMAT_IEEE_FLOAT else WAVE_FORMAT_PCM)
      && fields[2..4] == Le16(info.numChannels)
      && fields[4..8] == Le32(info.sampleRate)
      && fields[12..14] == Le16(BlockAlign(info))
      && fields[14..16] == Le16(info.bitsPerSample)
  {
    hide Le16, Le32, BlockAlign;
  }

  /** What follows the format fields: the data chunk, perhaps behind a fact chunk. */
  lemma FindsData(bytes: seq<Byte>, pos: nat, info: WaveInfo)
    requires HasAt(bytes, pos, FactChunk(info) + DataChunkHeader(info))
    ensures FindChunk(bytes, pos, 0, DATA) == Found(SampleBytes(info), pos + |FactChunk(info)| + 8)
  {
    hide Le32, FindChunk, SampleBytes;
    HasParts(bytes, pos, FactChunk(info), DataChunkHeader(info));
    FindsHere(bytes, pos + |FactChunk(info)|, DATA, SampleBytes(info), DATA);
    if FactChunk(info) != [] {
      assert FACT + (Le32(4) + Le32(info.numSamples)) == FACT + Le32(4) + Le32(info.numSamples);
      HasParts(bytes, pos, FACT + Le32(4), Le32(info.numSamples));
      FindsHere(bytes, pos, FACT, 4, DATA);
      SkipFirst(bytes, pos + 8, 4, DATA);
      assert FACT[0] != DATA[0];
    }
  }

  /** What reading a written header comes to, whatever format was written and whatever data
      follow. */
  lemma HeaderOutcome(info: WaveInfo, data: seq<Byte>)
    ensures ParseInfo(Header(info) + data, 0)
         == if BlockAlign(info) == 0 then DivisionByZero
            else Format(info.(numChannels := info.numChannels % 0x1_0000,
                              numSamples := FramesIn(SampleBytes(info), BlockAlign(info))), |Header(info)|)
  {
    hide Le32, FindChunk, SampleBytes, FormatFields, FactChunk, FromLe16, FromLe32, FramesIn, BlockAlign;
    var bytes := Header(info) + data;
    HeaderPieces(info, data);
    assert ReadAt(bytes, 0, 8)[..4] == RIFF;
    FindsHere(bytes, 12, FMT, WaveChunkSize(info), FMT);
    FindsData(bytes, 20 + WaveChunkSize(info), info);
    FieldsRoundTrip(info);
    assert ReadAt(bytes, 20, 16) == FormatFields(info);
  }

  /** The written header reads back as the same format, exactly if the size of the sample data
      fits 32 bits, and the data start right behind it, whatever the data are. */
  lemma HeaderRoundTrip(info: WaveInfo, data: seq<Byte>)
    requires FrameFits(info)
    ensures ParseInfo(Header(info) + data, 0) == Format(info, |Header(info)|) <==> Fits(info)
  {
    hide ParseInfo, Header, SampleBytes, BlockAlign, FramesIn, Fits, FrameFits;
    HeaderOutcome(info, data);
    SizesRoundTrip(info);
    ChannelsFit(info);
  }

  /** Reading what was written for 16384 channels of 32 bits divides by zero: a sample frame of
      65536 bytes has block alignment zero. */
  lemma ManyChannelsDivideByZero(samples: Word, rate: Word, isFloatingPoint: bool, data: seq<Byte>)
    ensures ParseInfo(Header(WaveInfo(0x4000, samples, rate, isFloatingPoint, 32)) + data, 0) == DivisionByZero
  {
    hide ParseInfo, Header, SampleBytes, FramesIn;
    HeaderOutcome(WaveInfo(0x4000, samples, rate, isFloatingPoint, 32), data);
  }

  lemma RiffPieces(bytes: seq<Byte>, info: WaveInfo)
    requires HasAt(bytes, 0, RiffChunk(info))
    ensures HasAt(bytes, 0, RIFF) && HasAt(bytes, 8, WAVE)
  {
    hide Le32, SampleBytes;
    var size := Le32(8 + (SampleBytes(info) + 1) / 2 * 2 + 12 + WaveChunkSize(info));
    HasParts(bytes, 0, RIFF, size + WAVE);
    HasParts(bytes, 4, size, WAVE);
  }

  lemma FormatPieces(bytes: seq<Byte>, pos: nat, info: WaveInfo)
    requires HasAt(bytes, pos, FormatChunk(info))
    ensures HasAt(bytes, pos, FMT + Le32(WaveChunkSize(info))) && HasAt(bytes, pos + 8, FormatFields(info))
    ensures |FormatChunk(info)| == 8 + WaveChunkSize(info)
  {
    hide Le32, FormatFields;
    var extension := if info.bitsPerSample > 16 then Le16(0) else [];
    AppendAll(FMT, Le32(WaveChunkSize(info)), FormatFields(info) + extension);
    HasParts(bytes, pos, FMT + Le32(WaveChunkSize(info)), FormatFields(info) + extension);
    HasParts(bytes, pos + 8, FormatFields(info), extension);
  }

  lemma HeaderPieces(info: WaveInfo, data: seq<Byte>)
    ensures var bytes := Header(info) + data;
      && HasAt(bytes, 0, RIFF) && |bytes| >= 36 && HasAt(bytes, 8, WAVE)
      && HasAt(bytes, 12, FMT + Le32(WaveChunkSize(info)))
      && HasAt(bytes, 20, FormatFields(info))
      && HasAt(bytes, 20 + WaveChunkSize(info), FactChunk(info) + DataChunkHeader(info))
      && |Header(info)| == 20 + WaveChunkSize(info) + |FactChunk(info)| + 8
  {
    hide Le32, SampleBytes, FormatFields, FactChunk, DataChunkHeader, FormatChunk;
    var bytes := Header(info) + data;
    var tail := FactChunk(info) + DataChunkHeader(info);
    assert HasAt(bytes, 0, Header(info));
    HasParts(bytes, 0, RiffChunk(info), FormatChunk(info) + tail);
    HasParts(bytes, 12, FormatChunk(info), tail);
    RiffPieces(bytes, info);
    FormatPieces(bytes, 12, info);
  }

  // Sample data. A block holds the values of each channel; all channels have the same length.

  type Block = seq<seq<Word>>

  ghost predicate IsBlock(block: Block, channels: nat, samples: nat) {
    |block| == channels && forall c :: 0 <= c < channels ==> |block[c]| == samples
  }

  /** Position of a channel's value in interleaved data. */
  function Index(i: int, channels: nat, chan: int): int {
    i * channels + chan
  }

  lemma IndexIsUnique(i: nat, channels: nat, chan: nat)
    requires chan < channels
    ensures Index(i, channels, chan) / channels == i && Index(i, channels, chan) % channels == chan
    ensures Index(i, channels, chan) >= 0
  {
    QuotientIs(Index(i, channels, chan), i, chan, channels);
  }

  lemma IndexGrows(i: nat, samples: nat, channels: nat, chan: nat)
    requires i < samples && chan < channels
    ensures Index(i, channels, chan) < samples * channels
  {
    MultiplesAreFar(samples - i, channels);
    assert samples * channels == i * channels + (samples - i) * channels;
  }

  lemma EveryIndex(k: nat, samples: nat, channels: nat)
    requires 0 < channels && k < samples * channels
    ensures k / channels < samples && k == Index(k / channels, channels, k % channels)
  {
    MultiplesAreFar(k / channels - samples + 1, channels);
    assert k == k / channels * channels + k % channels;
    assert (k / channels - samples + 1) * channels == k / channels * channels - samples * channels + channels;
  }

  /** The block's values from one sample up to another, sample by sample. */
  ghost predicate Interleaves(values: seq<Word>, block: Block, from: nat, to: nat) {
    && from <= to && |values| == (to - from) * |block|
    && (forall c :: 0 <= c < |block| ==> to <= |block[c]|)
    && forall c, i :: 0 <= c < |block| && 0 <= i < to - from ==>
         0 <= Index(i, |block|, c) < |values| && values[Index(i, |block|, c)] == block[c][from + i]
  }

  lemma InterleavingIsUnique(a: seq<Word>, b: seq<Word>, block: Block, from: nat, to: nat)
    requires block != [] && Interleaves(a, block, from, to) && Interleaves(b, block, from, to)
    ensures a == b
  {
    forall k | 0 <= k < |a| ensures a[k] == b[k] {
      EveryIndex(k, to - from, |block|);
    }
  }

  ghost function Pick(block: Block, from: nat, k: nat): Word
    requires block != []
  {
    if from + k / |block| < |block[k % |block|]| then block[k % |block|][from + k / |block|] else 0
  }

  ghost function Interleaved(block: Block, from: nat, to: nat): (values: seq<Word>)
    requires block != [] && from <= to
    ensures |values| == (to - from) * |block|
  {
    seq((to - from) * |block|, k requires 0 <= k => Pick(block, from, k))
  }

  lemma InterleavedInterleaves(block: Block, from: nat, to: nat)
    requires block != [] && from <= to && forall c :: 0 <= c < |block| ==> to <= |block[c]|
    ensures Interleaves(Interleaved(block, from, to), block, from, to)
  {
    forall c, i | 0 <= c < |block| && 0 <= i < to - from
      ensures 0 <= Index(i, |block|, c) < (to - from) * |block|
      ensures Pick(block, from, Index(i, |block|, c)) == block[c][from + i]
    {
      IndexIsUnique(i, |block|, c);
      IndexGrows(i, to - from, |block|, c);
    }
  }

  lemma ValueOfParts(a: seq<Word>, b: seq<Word>, block: Block, from: nat, mid: nat, to: nat, c: nat, i: nat)
    requires Interleaves(a, block, from, mid) && Interleaves(b, block, mid, to)
    requires c < |block| && i < to - from
    ensures to <= |block[c]|
    ensures 0 <= Index(i, |block|, c) < |a + b| && (a + b)[Index(i, |block|, c)] == block[c][from + i]
  {
    hide Index;
    if i < mid - from {
      assert a[Index(i, |block|, c)] == block[c][from + i];
    } else {
      var j := i - (mid - from);
      IndexShift(mid - from, j, |block|, c);
      assert b[Index(j, |block|, c)] == block[c][mid + j];
      ProductIsMonotone(0, mid - from, |block|);
    }
  }

  /** Consecutive parts of a block interleave to consecutive values. */
  lemma InterleavedSplit(block: Block, from: nat, mid: nat, to: nat)
    requires block != [] && from <= mid <= to && forall c :: 0 <= c < |block| ==> to <= |block[c]|
    ensures Interleaved(block, from, to) == Interleaved(block, from, mid) + Interleaved(block, mid, to)
  {
    hide Interleaved;
    var channels := |block|;
    var a, b := Interleaved(block, from, mid), Interleaved(block, mid, to);
    InterleavedInterleaves(block, from, mid);
    InterleavedInterleaves(block, mid, to);
    InterleavedInterleaves(block, from, to);
    FramesAdd(mid - from, to - mid, channels);
    forall c, i | 0 <= c < channels && 0 <= i < to - from
      ensures 0 <= Index(i, channels, c) < |a + b| && (a + b)[Index(i, channels, c)] == block[c][from + i]
    {
      ValueOfParts(a, b, block, from, mid, to, c, i);
    }
    InterleavingIsUnique(a + b, Interleaved(block, from, to), block, from, to);
  }

  // Words as bytes.

  function Bytes(values: seq<Word>): (r: seq<Byte>)
    ensures |r| == 4 * |values|
  {
    if values == [] then [] else Le32(values[0]) + Bytes(values[1..])
  }

  lemma {:induction false} BytesConcat(a: seq<Word>, b: seq<Word>)
    ensures Bytes(a + b) == Bytes(a) + Bytes(b)
  {
    hide Le32;
    if a == [] {
      assert a + b == b;
    } else {
      BytesConcat(a[1..], b);
      assert (a + b)[1..] == a[1..] + b;
      AppendAll(Le32(a[0]), Bytes(a[1..]), Bytes(b));
    }
  }

  lemma BytesSlice(values: seq<Word>, from: nat, to: nat)
    requires from <= to <= |values|
    ensures Bytes(values)[4 * from..4 * to] == Bytes(values[from..to])
  {
    hide Bytes;
    var a, b, c := values[..from], values[from..to], values[to..];
    ThreeParts(values, from, to);
    BytesConcat(a, b + c);
    BytesConcat(b, c);
    MiddleIs(Bytes(values), Bytes(a), Bytes(b), Bytes(c), 4 * from, 4 * to);
  }

  lemma BytesOfOne(x: Word)
    ensures Bytes([x]) == Le32(x)
  {
    hide Le32;
    assert Bytes([x]) == Le32(x) + Bytes([x][1..]);
  }

  lemma WordAt(values: seq<Word>, k: nat)
    requires k < |values|
    ensures FromLe32(Bytes(values)[4 * k..4 * k + 4]) == values[k]
  {
    hide FromLe32, Le32, Bytes;
    BytesSlice(values, k, k + 1);
    assert values[k..k + 1] == [values[k]];
    BytesOfOne(values[k]);
    Le32RoundTrip(values[k]);
  }

  // The copy loops.

  method ConvertAndInterleaveAudio(source: Block, sourceOffset: nat, target: array<Word>, count: nat)
    requires source != [] && count <= target.Length && count % |source| == 0
    requires forall c :: 0 <= c < |source| ==> sourceOffset + count / |source| <= |source[c]|
    modifies target
    ensures Interleaves(target[..count], source, sourceOffset, sourceOffset + count / |source|)
  {
    var channels := |source|;
    var numSamples := count / channels;
    assert count == numSamples * channels;
    for chan := 0 to channels
      invariant forall c, i :: 0 <= c < chan && 0 <= i < numSamples ==>
                  0 <= Index(i, channels, c) < count && target[Index(i, channels, c)] == source[c][sourceOffset + i]
    {
      for i := 0 to numSamples
        invariant forall c, j :: 0 <= c <= chan && 0 <= j < (if c < chan then numSamples else i) ==>
                    0 <= Index(j, channels, c) < count && target[Index(j, channels, c)] == source[c][sourceOffset + j]
      {
        IndexIsUnique(i, channels, chan);
        IndexGrows(i, numSamples, channels, chan);
        forall c, j | 0 <= c <= chan && 0 <= j < (if c < chan then numSamples else i)
          ensures Index(j, channels, c) != Index(i, channels, chan)
        {
          IndexIsUnique(j, channels, c);
        }
        target[Index(i, channels, chan)] := source[chan][sourceOffset + i];
      }
    }
  }

  method DeinterleaveAndConvertAudio(source: seq<Word>, numSourceChannels: nat, target: array2<Word>, targetOffset: nat)
    requires 0 < target.Length0 <= numSourceChannels && |source| % numSourceChannels == 0
    requires targetOffset + |source| / numSourceChannels <= target.Length1
    modifies target
    ensures forall c, i :: 0 <= c < target.Length0 && 0 <= i < |source| / numSourceChannels ==>
              0 <= Index(i, numSourceChannels, c) < |source|
              && target[c, targetOffset + i] == source[Index(i, numSourceChannels, c)]
    ensures forall c, j :: 0 <= c < target.Length0 && 0 <= j < targetOffset ==> target[c, j] == old(target[c, j])
  {
    var numSamples := |source| / numSourceChannels;
    assert |source| == numSamples * numSourceChannels;
    for chan := 0 to target.Length0
      invariant forall c, i :: 0 <= c < chan && 0 <= i < numSamples ==>
                  0 <= Index(i, numSourceChannels, c) < |source|
                  && target[c, targetOffset + i] == source[Index(i, numSourceChannels, c)]
      invariant forall c, j :: 0 <= c < target.Length0 && 0 <= j < targetOffset ==> target[c, j] == old(target[c, j])
    {
      for i := 0 to numSamples
        invariant forall c, j :: 0 <= c <= chan && 0 <= j < (if c < chan then numSamples else i) ==>
                    0 <= Index(j, numSourceChannels, c) < |source|
                    && target[c, targetOffset + j] == source[Index(j, numSourceChannels, c)]
        invariant forall c, j :: 0 <= c < target.Length0 && 0 <= j < targetOffset ==> target[c, j] == old(target[c, j])
      {
        IndexIsUnique(i, numSourceChannels, chan);
        IndexGrows(i, numSamples, numSourceChannels, chan);
        target[chan, targetOffset + i] := source[Index(i, numSourceChannels, chan)];
      }
    }
  }

  // The drivers, which move the data through a buffer of any number of whole sample frames.

  lemma WholeFrames(count: nat, channels: nat)
    requires channels > 0 && count % channels == 0
    ensures count == count / channels * channels
    ensures count > 0 ==> count / channels > 0
  {
  }

  lemma QuotientOfFrames(frames: nat, channels: nat)
    requires channels > 0
    ensures frames * channels % channels == 0 && frames * channels / channels == frames
  {
    QuotientIs(frames * channels, frames, 0, channels);
  }

  method ConvertInterleaveWrite(source: Block, numSamples: nat, buffer: array<Word>, file: File)
    requires source != [] && IsBlock(source, |source|, numSamples)
    requires buffer.Length > 0 && buffer.Length % |source| == 0
    requires file.pos == |file.bytes|
    modifies buffer, file
    ensures file.bytes == old(file.bytes) + Bytes(Interleaved(source, 0, numSamples)) && file.pos == |file.bytes|
  {
    hide Interleaved, Bytes, Pick;
    var channels := |source|;
    var samplesWritten := 0;
    NothingInterleaved(source);
    while samplesWritten < numSamples
      invariant samplesWritten <= numSamples
      invariant file.bytes == old(file.bytes) + Bytes(Interleaved(source, 0, samplesWritten))
      invariant file.pos == |file.bytes|
    {
      var rest := channels * (numSamples - samplesWritten);
      var valuesToWrite := if rest < buffer.Length then rest else buffer.Length;
      ghost var frames := if rest < buffer.Length then numSamples - samplesWritten else buffer.Length / channels;
      FramesToWrite(numSamples - samplesWritten, buffer.Length, channels);
      QuotientOfFrames(frames, channels);
      ConvertAndInterleaveAudio(source, samplesWritten, buffer, valuesToWrite);
      ghost var values := Interleaved(source, samplesWritten, samplesWritten + frames);
      InterleavedInterleaves(source, samplesWritten, samplesWritten + frames);
      InterleavingIsUnique(buffer[..valuesToWrite], values, source, samplesWritten, samplesWritten + frames);
      AppendAtEnd(file.bytes, Bytes(values));
      AppendValues(old(file.bytes), source, samplesWritten, samplesWritten + frames);
      file.Write(Bytes(buffer[..valuesToWrite]));
      samplesWritten := samplesWritten + valuesToWrite / channels;
    }
  }

  /** A pass writes the samples left, or as many as the buffer takes. */
  lemma FramesToWrite(samples: nat, length: nat, channels: nat)
    requires channels > 0 && samples > 0 && length > 0 && length % channels == 0
    ensures var frames := if channels * samples < length then samples else length / channels;
            0 < frames <= samples && frames * channels == if channels * samples < length then channels * samples else length
  {
    WholeFrames(length, channels);
    if channels * samples >= length {
      MultiplesAreFar(length / channels - samples, channels);
      assert (length / channels - samples) * channels == length / channels * channels - samples * channels;
    }
  }

  lemma NothingInterleaved(block: Block)
    requires block != []
    ensures Bytes(Interleaved(block, 0, 0)) == []
  {
    assert |Interleaved(block, 0, 0)| == 0;
  }

  lemma AppendAtEnd(bytes: seq<Byte>, data: seq<Byte>)
    ensures Overwritten(bytes, |bytes|, data) == bytes + data
  {
  }

  lemma AppendValues(start: seq<Byte>, block: Block, mid: nat, to: nat)
    requires block != [] && mid <= to && forall c :: 0 <= c < |block| ==> to <= |block[c]|
    ensures start + Bytes(Interleaved(block, 0, mid)) + Bytes(Interleaved(block, mid, to))
         == start + Bytes(Interleaved(block, 0, to))
  {
    hide Interleaved, Bytes;
    InterleavedSplit(block, 0, mid, to);
    BytesConcat(Interleaved(block, 0, mid), Interleaved(block, mid, to));
    AppendAll(start, Bytes(Interleaved(block, 0, mid)), Bytes(Interleaved(block, mid, to)));
  }

  /** The first samples of each channel of the target are the values'. */
  ghost predicate Scattered(target: array2<Word>, samples: nat, values: seq<Word>, channels: nat)
    reads target
  {
    && samples <= target.Length1
    && forall c, i :: 0 <= c < target.Length0 && 0 <= i < samples ==>
         0 <= Index(i, channels, c) < |values| && target[c, i] == values[Index(i, channels, c)]
  }

  /** The bytes in the buffer, taken as words. */
  method LoadWords(data: seq<Byte>, ghost values: seq<Word>, buffer: array<Word>)
    requires |Bytes(values)| <= |data| <= 4 * buffer.Length && data[..|Bytes(values)|] == Bytes(values)
    modifies buffer
    ensures buffer[..|values|] == values
  {
    hide Bytes, FromLe32;
    var words := |data| / 4;
    forall k | 0 <= k < words {
      buffer[k] := FromLe32(data[4 * k..4 * k + 4]);
    }
    forall k | 0 <= k < |values| ensures buffer[k] == values[k] {
      WordAt(values, k);
      assert data[4 * k..4 * k + 4] == Bytes(values)[4 * k..4 * k + 4];
    }
  }

  /** The samples delivered when every pass takes a whole buffer, as far as the file goes, until
      numSamples are reached. */
  function SamplesReached(done: nat, available: nat, perPass: nat, numSamples: nat): (r: nat)
    requires perPass > 0 && done <= available
    ensures done <= r <= available
    decreases available - done
  {
    if done >= numSamples || done == available then done
    else if available - done < perPass then SamplesReached(available, available, perPass, numSamples)
    else SamplesReached(done + perPass, available, perPass, numSamples)
  }

  /** The number of samples, rounded up to whole passes. */
  function WholePasses(numSamples: nat, perPass: nat): nat
    requires perPass > 0
  {
    (numSamples + perPass - 1) / perPass * perPass
  }

  lemma {:induction false} ReachedByPasses(k: nat, done: nat, available: nat, perPass: nat, numSamples: nat)
    requires perPass > 0 && done == k * perPass <= available
    requires k == 0 || (k - 1) * perPass < numSamples
    ensures SamplesReached(done, available, perPass, numSamples)
         == if available <= WholePasses(numSamples, perPass) then available else WholePasses(numSamples, perPass)
    decreases available - done
  {
    hide WholePasses;
    var passes := PassesCover(numSamples, perPass);
    if done >= numSamples {
      SamePasses(k, passes, perPass, numSamples);
    } else {
      MorePasses(k, passes, perPass, numSamples);
      if available - done >= perPass {
        FramesAdd(k, 1, perPass);
        ReachedByPasses(k + 1, done + perPass, available, perPass, numSamples);
      }
    }
  }

  lemma PassesCover(numSamples: nat, perPass: nat) returns (passes: nat)
    requires perPass > 0
    ensures WholePasses(numSamples, perPass) == passes * perPass >= numSamples
    ensures if numSamples == 0 then passes == 0 else (passes - 1) * perPass < numSamples
  {
    var sum := numSamples + perPass - 1;
    var q := sum / perPass;
    assert sum == q * perPass + sum % perPass;
    MultiplesAreFar(q, perPass);
    FramesAdd(q, -1, perPass);
    passes := q;
    if numSamples == 0 {
      QuotientIs(sum, 0, sum, perPass);
    }
  }

  lemma SamePasses(k: nat, passes: nat, perPass: nat, numSamples: nat)
    requires perPass > 0 && k * perPass >= numSamples && (k == 0 || (k - 1) * perPass < numSamples)
    requires numSamples <= passes * perPass
    requires if numSamples == 0 then passes == 0 else (passes - 1) * perPass < numSamples
    ensures k == passes
  {
    if k < passes {
      ProductIsMonotone(k, passes - 1, perPass);
    } else if passes < k {
      ProductIsMonotone(passes, k - 1, perPass);
    }
  }

  lemma MorePasses(k: nat, passes: nat, perPass: nat, numSamples: nat)
    requires k * perPass < numSamples <= passes * perPass
    ensures (k + 1) * perPass <= passes * perPass
  {
    if passes <= k {
      ProductIsMonotone(passes, k, perPass);
    } else {
      ProductIsMonotone(k + 1, passes, perPass);
    }
  }

  /** All writes of a read stay within a target of `room` samples exactly if the file does not
      hold more sample frames than that, or whole passes do not reach beyond it. */
  lemma ReadStaysInside(available: nat, perPass: nat, numSamples: nat, room: nat)
    requires perPass > 0
    ensures SamplesReached(0, available, perPass, numSamples) <= room
       <==> available <= room || WholePasses(numSamples, perPass) <= room
  {
    ReachedByPasses(0, 0, available, perPass, numSamples);
  }

  /** Any bytes are whole sample frames and the start of one more. */
  lemma SplitFrames(bytes: seq<Byte>, channels: nat) returns (values: seq<Word>, available: nat, rest: seq<Byte>)
    requires channels > 0
    ensures bytes == Bytes(values) + rest && |values| == available * channels && |rest| < 4 * channels
  {
    available := |bytes| / (4 * channels);
    FrameBytes(|bytes|, channels);
    values := WordsOf(bytes[..4 * (available * channels)], available * channels);
    rest := bytes[4 * (available * channels)..];
  }

  lemma FrameBytes(length: nat, channels: nat)
    requires channels > 0
    ensures var frames := length / (4 * channels);
            frames >= 0 && frames * channels >= 0 && 4 * (frames * channels) <= length < 4 * (frames * channels) + 4 * channels
  {
    var frames := length / (4 * channels);
    assert length == frames * (4 * channels) + length % (4 * channels);
    assert frames * (4 * channels) == 4 * (frames * channels);
    MultiplesAreFar(frames, 4 * channels);
    MultiplesAreFar(frames, channels);
  }

  lemma {:induction false} WordsOf(bytes: seq<Byte>, n: nat) returns (values: seq<Word>)
    requires |bytes| == 4 * n
    ensures |values| == n && Bytes(values) == bytes
  {
    if n == 0 {
      values := [];
    } else {
      var rest := WordsOf(bytes[4..], n - 1);
      values := [FromLe32(bytes[..4])] + rest;
      FourBytesRoundTrip(bytes[..4]);
      assert values[1..] == rest;
    }
  }

  lemma LowByte(a: Byte, b: nat)
    ensures (a as int + 256 * b) % 256 == a && (a as int + 256 * b) / 256 == b
  {
  }

  lemma FourBytesRoundTrip(b: seq<Byte>)
    requires |b| == 4
    ensures Le32(FromLe32(b)) == b
  {
    LowByte(b[2], b[3]);
    LowByte(b[1], b[2] as int + 256 * b[3] as int);
    LowByte(b[0], b[1] as int + 256 * (b[2] as int + 256 * b[3] as int));
  }

  /** Reads passes of whole buffers until numSamples are reached or the file ends. values are the
      sample frames that the file still holds, whatever chunk they belong to, and rest is less
      than one frame. All writes must stay within the target. */
  method ReadDeinterleaveConvert(
      file: File, buffer: array<Word>, numSamples: nat, numSourceChannels: nat, target: array2<Word>,
      ghost values: seq<Word>, ghost available: nat, ghost rest: seq<Byte>)
    returns (samplesRead: nat)
    requires 0 < target.Length0 <= numSourceChannels
    requires buffer.Length > 0 && buffer.Length % numSourceChannels == 0 && buffer.Length / numSourceChannels > 0
    requires file.pos <= |file.bytes| && file.bytes[file.pos..] == Bytes(values) + rest
    requires |values| == available * numSourceChannels && |rest| < 4 * numSourceChannels
    requires SamplesReached(0, available, buffer.Length / numSourceChannels, numSamples) <= target.Length1
    modifies file, buffer, target
    ensures samplesRead == SamplesReached(0, available, buffer.Length / numSourceChannels, numSamples)
    ensures file.bytes == old(file.bytes) && file.pos <= |file.bytes|
    ensures Scattered(target, samplesRead, values, numSourceChannels)
    ensures samplesRead < available ==> LeftBehind(file.bytes[file.pos..], values, samplesRead, numSourceChannels, rest)
  {
    hide Bytes, FromLe32, ReadAt, Index, Scattered, SamplesReached, IsPending, LeftBehind;
    samplesRead := 0;
    NothingScattered(target, values, numSourceChannels);
    ghost var perPass, pending, tail := buffer.Length / numSourceChannels, values, rest;
    PendingStart(values, available, numSourceChannels);
    while samplesRead < numSamples
      invariant samplesRead <= available && IsPending(pending, values, samplesRead, available, numSourceChannels)
      invariant SamplesReached(samplesRead, available, perPass, numSamples) == SamplesReached(0, available, perPass, numSamples)
      invariant file.bytes == old(file.bytes) && file.pos <= |file.bytes| && |tail| < 4 * numSourceChannels
      invariant file.bytes[file.pos..] == Bytes(pending) + tail && (samplesRead < available ==> tail == rest)
      invariant Scattered(target, samplesRead, values, numSourceChannels)
      decreases available - samplesRead
    {
      PassReaches(samplesRead, available, perPass, numSamples);
      PendingCount(pending, values, samplesRead, available, numSourceChannels);
      var samplesReadIntoBuffer;
      samplesReadIntoBuffer, tail := FillBuffer(file, buffer, numSourceChannels, pending, available - samplesRead, tail);
      if samplesReadIntoBuffer == 0 {
        return;
      }
      PendingNext(pending, values, samplesRead, available, numSourceChannels, samplesReadIntoBuffer);
      Scatter(buffer, target, samplesRead, samplesReadIntoBuffer, numSourceChannels, values);
      pending := pending[samplesReadIntoBuffer * numSourceChannels..];
      samplesRead := samplesRead + samplesReadIntoBuffer;
    }
    PassesEnd(samplesRead, available, perPass, numSamples);
    PendingIsLeft(pending, values, samplesRead, available, numSourceChannels, rest);
  }

  /** The bytes of the sample frames from `done` on, and of what follows them. */
  ghost predicate LeftBehind(bytes: seq<Byte>, values: seq<Word>, done: nat, channels: nat, rest: seq<Byte>) {
    done * channels <= |values| && bytes == Bytes(values[done * channels..]) + rest
  }

  lemma PendingIsLeft(pending: seq<Word>, values: seq<Word>, done: nat, available: nat, channels: nat, rest: seq<Byte>)
    requires IsPending(pending, values, done, available, channels)
    ensures LeftBehind(Bytes(pending) + rest, values, done, channels, rest)
  {
    hide Bytes;
  }

  /** Reads a buffer: the whole sample frames in it, of those that the file still holds. */
  method FillBuffer(
      file: File, buffer: array<Word>, channels: nat, ghost pending: seq<Word>, ghost left: nat, ghost tail: seq<Byte>)
    returns (frames: nat, ghost tail': seq<Byte>)
    requires channels > 0 && buffer.Length > 0 && buffer.Length % channels == 0
    requires |pending| == left * channels && file.pos <= |file.bytes| && |tail| < 4 * channels
    requires file.bytes[file.pos..] == Bytes(pending) + tail
    modifies file, buffer
    ensures frames == if left < buffer.Length / channels then left else buffer.Length / channels
    ensures frames * channels <= |pending| && frames * channels <= buffer.Length && |tail'| < 4 * channels
    ensures file.bytes == old(file.bytes) && file.pos <= |file.bytes|
    ensures file.bytes[file.pos..] == Bytes(pending[frames * channels..]) + tail' && (frames < left ==> tail' == tail)
    ensures buffer[..frames * channels] == pending[..frames * channels]
  {
    hide Bytes, ReadAt;
    ghost var n;
    n, tail' := PassReads(file.bytes, file.pos, buffer.Length, pending, left, channels, tail);
    var data := file.Read(buffer.Length * 4);
    frames := |data| / (4 * channels);
    LoadWords(data, pending[..n * channels], buffer);
  }

  lemma PassesEnd(done: nat, available: nat, perPass: nat, numSamples: nat)
    requires perPass > 0 && numSamples <= done <= available
    ensures SamplesReached(done, available, perPass, numSamples) == done
  {
  }

  lemma NothingScattered(target: array2<Word>, values: seq<Word>, channels: nat)
    ensures Scattered(target, 0, values, channels)
  {
  }

  /** The values of the sample frames not yet read. */
  ghost predicate IsPending(pending: seq<Word>, values: seq<Word>, done: nat, available: nat, channels: nat) {
    && done <= available && |values| == available * channels && done * channels <= |values|
    && pending == values[done * channels..] && |pending| == (available - done) * channels
  }

  lemma PendingStart(values: seq<Word>, available: nat, channels: nat)
    requires |values| == available * channels
    ensures IsPending(values, values, 0, available, channels)
  {
  }

  lemma PendingCount(pending: seq<Word>, values: seq<Word>, done: nat, available: nat, channels: nat)
    requires IsPending(pending, values, done, available, channels)
    ensures done <= available && |pending| == (available - done) * channels
  {
  }

  lemma PendingNext(pending: seq<Word>, values: seq<Word>, done: nat, available: nat, channels: nat, frames: nat)
    requires IsPending(pending, values, done, available, channels) && done + frames <= available
    ensures frames * channels <= |pending| && done * channels <= |values| && (done + frames) * channels <= |values|
    ensures pending == values[done * channels..]
    ensures IsPending(pending[frames * channels..], values, done + frames, available, channels)
  {
    FramesAdd(done, frames, channels);
    FramesAdd(available - done - frames, frames, channels);
    FramesAdd(available - done - frames, done + frames, channels);
    ProductIsMonotone(0, available - done - frames, channels);
  }

  lemma PassReaches(done: nat, available: nat, perPass: nat, numSamples: nat)
    requires perPass > 0 && done <= available && done < numSamples
    ensures var frames := if available - done < perPass then available - done else perPass;
      && done + frames <= SamplesReached(done, available, perPass, numSamples)
      && SamplesReached(done, available, perPass, numSamples) == SamplesReached(done + frames, available, perPass, numSamples)
      && (frames == 0 ==> SamplesReached(done, available, perPass, numSamples) == done)
  {
  }

  /** The samples of one pass, behind those of the passes before. */
  method Scatter(buffer: array<Word>, target: array2<Word>, done: nat, frames: nat, channels: nat, ghost values: seq<Word>)
    requires 0 < target.Length0 <= channels && frames * channels <= buffer.Length
    requires (done + frames) * channels <= |values| && done * channels <= |values| && done + frames <= target.Length1
    requires buffer[..frames * channels] == values[done * channels..][..frames * channels]
    requires Scattered(target, done, values, channels)
    modifies target
    ensures Scattered(target, done + frames, values, channels)
  {
    hide Index;
    QuotientOfFrames(frames, channels);
    DeinterleaveAndConvertAudio(buffer[..frames * channels], channels, target, done);
    forall c, i | 0 <= c < target.Length0 && done <= i < done + frames
      ensures 0 <= Index(i, channels, c) < |values| && target[c, i] == values[Index(i, channels, c)]
    {
      IndexShift(done, i - done, channels, c);
      assert target[c, done + (i - done)] == buffer[..frames * channels][Index(i - done, channels, c)];
    }
  }

  lemma IndexShift(a: int, i: int, channels: nat, c: int)
    ensures Index(a + i, channels, c) == a * channels + Index(i, channels, c)
  {
  }

  lemma FramesAdd(a: int, b: int, channels: nat)
    ensures (a + b) * channels == a * channels + b * channels
  {
  }

  /** One fread: a whole buffer or the rest of the file. */
  lemma PassReads(bytes: seq<Byte>, pos: nat, length: nat, values: seq<Word>, left: nat, channels: nat, rest: seq<Byte>)
    returns (frames: nat, rest': seq<Byte>)
    requires pos <= |bytes| && bytes[pos..] == Bytes(values) + rest && |values| == left * channels && |rest| < 4 * channels
    requires channels > 0 && length > 0 && length % channels == 0
    ensures frames == if left < length / channels then left else length / channels
    ensures frames * channels <= |values| && frames * channels <= length && |rest'| < 4 * channels
    ensures frames < left ==> rest' == rest
    ensures var data := ReadAt(bytes, pos, length * 4);
      && |data| / (4 * channels) == frames
      && 4 * (frames * channels) <= |data| <= 4 * length
      && data[..4 * (frames * channels)] == Bytes(values[..frames * channels])
      && pos + |data| <= |bytes|
      && bytes[pos + |data|..] == Bytes(values[frames * channels..]) + rest'
  {
    hide Bytes;
    FramesFit(left, length, channels);
    if left < length / channels {
      frames := left;
      rest' := LastPassReads(bytes, pos, length, values, left, channels, rest);
    } else {
      frames, rest' := length / channels, rest;
      var n := frames * channels;
      BytesSlice(values, 0, n);
      BytesSlice(values, n, |values|);
      assert values[0..n] == values[..n] && values[n..|values|] == values[n..];
      WholePass(bytes, pos, Bytes(values), rest, 4 * n);
      FrameQuotient(|ReadAt(bytes, pos, length * 4)|, frames, channels);
    }
  }

  /** The pass that takes what is left, and perhaps a part of the cut-off frame. */
  lemma LastPassReads(bytes: seq<Byte>, pos: nat, length: nat, values: seq<Word>, left: nat, channels: nat, rest: seq<Byte>)
    returns (rest': seq<Byte>)
    requires pos <= |bytes| && bytes[pos..] == Bytes(values) + rest && |values| == left * channels && |rest| < 4 * channels
    requires channels > 0 && length % channels == 0 && left < length / channels
    ensures |rest'| < 4 * channels
    ensures var data := ReadAt(bytes, pos, length * 4);
      && |data| / (4 * channels) == left
      && 4 * |values| <= |data| <= 4 * length
      && data[..4 * |values|] == Bytes(values[..|values|])
      && pos + |data| <= |bytes|
      && bytes[pos + |data|..] == Bytes(values[|values|..]) + rest'
  {
    hide Bytes;
    FramesFit(left, length, channels);
    BytesSlice(values, 0, |values|);
    assert values[0..|values|] == values[..|values|] == values;
    var data := ReadAt(bytes, pos, length * 4);
    EndOfFile(bytes, pos, length * 4, Bytes(values), rest);
    rest' := bytes[pos + |data|..];
    NothingBefore(rest');
    NoBytes();
    FrameQuotient(|data|, left, channels);
  }

  lemma NoBytes()
    ensures Bytes([]) == []
  {
  }

  lemma FramesFit(left: nat, length: nat, channels: nat)
    requires channels > 0 && length % channels == 0
    ensures left < length / channels ==> left * channels + channels <= length
    ensures left >= length / channels ==> length <= left * channels
    ensures length / channels * channels == length
  {
    WholeFrames(length, channels);
    MultiplesAreFar(length / channels - left, channels);
    assert (length / channels - left) * channels == length / channels * channels - left * channels;
  }

  lemma FrameQuotient(length: nat, frames: nat, channels: nat)
    requires channels > 0 && 4 * (frames * channels) <= length < 4 * (frames * channels) + 4 * channels
    ensures length / (4 * channels) == frames
  {
    assert frames * (4 * channels) == 4 * (frames * channels);
    QuotientIs(length, frames, length - frames * (4 * channels), 4 * channels);
  }

  lemma EndOfFile(bytes: seq<Byte>, pos: nat, count: nat, data: seq<Byte>, rest: seq<Byte>)
    requires pos <= |bytes| && bytes[pos..] == data + rest && |data| <= count
    ensures var read := ReadAt(bytes, pos, count);
      && |data| <= |read| <= |data| + |rest| && |read| <= count && read[..|data|] == data
      && pos + |read| <= |bytes| && |bytes[pos + |read|..]| <= |rest|
  {
    assert bytes[pos..][..|data|] == data;
  }

  lemma WholePass(bytes: seq<Byte>, pos: nat, data: seq<Byte>, rest: seq<Byte>, count: nat)
    requires pos <= |bytes| && bytes[pos..] == data + rest && count <= |data|
    ensures ReadAt(bytes, pos, count) == data[..count]
    ensures bytes[pos + count..] == data[count..] + rest
  {
    assert bytes[pos..][..count] == data[..count];
    assert bytes[pos..][count..] == data[count..] + rest;
  }

  const MAX_BUFFER_SIZE: nat := 65536

  predicate IsFloat32(info: WaveInfo) {
    info.isFloatingPoint && info.bitsPerSample == 32 && info.numChannels > 0
  }

  /** The sample frames in the buffer: at most 64 KiB, at least one frame. */
  function FramesPerPass(info: WaveInfo, numSamples: nat): (n: nat)
    requires IsFloat32(info)
    ensures n > 0
  {
    var maxSamplesPerBuffer := MAX_BUFFER_SIZE / 4 / info.numChannels;
    var fitting := if maxSamplesPerBuffer < numSamples then maxSamplesPerBuffer else numSamples;
    if fitting < 1 then 1 else fitting
  }

  /** The size of the buffer in values. */
  function BufferValues(info: WaveInfo, numSamples: nat): (n: nat)
    requires IsFloat32(info)
    ensures n > 0 && n % info.numChannels == 0
  {
    var samples := FramesPerPass(info, numSamples);
    QuotientOfFrames(samples, info.numChannels);
    MultiplesAreFar(samples, info.numChannels);
    samples * info.numChannels
  }

  class WaveWriter {
    var file: File?
    var info: WaveInfo
    ghost var values: seq<Word>

    ghost predicate Valid()
      reads this, file
    {
      && file != null && IsFloat32(info)
      && file.bytes == Header(info.(numSamples := 0)) + Bytes(values)
      && file.pos == |file.bytes|
    }

    constructor (file: File, info: WaveInfo)
      requires file.bytes == [] && file.pos == 0 && IsFloat32(info)
      modifies file
      ensures Valid() && this.file == file && this.info == info.(numSamples := 0) && values == []
    {
      this.file := file;
      this.info := info.(numSamples := 0);
      values := [];
      new;
      WriteWaveInfo(file, this.info);
      AppendAtEnd([], Header(this.info));
    }

    method Write(source: Block, numSamples: nat)
      requires Valid() && IsBlock(source, info.numChannels, numSamples)
      modifies this, file
      ensures Valid() && file == old(file)
      ensures values == old(values) + Interleaved(source, 0, numSamples)
      ensures info == old(info).(numSamples := (old(info).numSamples + numSamples) % 0x1_0000_0000)
    {
      hide Header, Bytes, Interleaved;
      var buffer := new Word[BufferValues(info, numSamples)];
      ConvertInterleaveWrite(source, numSamples, buffer, file);
      BytesConcat(values, Interleaved(source, 0, numSamples));
      AppendAll(Header(info.(numSamples := 0)), Bytes(values), Bytes(Interleaved(source, 0, numSamples)));
      values := values + Interleaved(source, 0, numSamples);
      info := info.(numSamples := (info.numSamples + numSamples) % 0x1_0000_0000);
    }

    /** Writes the header again, now with the right sample count, and lets go of the file. */
    method Release() returns (f: File)
      requires Valid()
      modifies this, file
      ensures f == old(file) && file == null
      ensures f.bytes == Header(old(info)) + Bytes(old(values))
    {
      hide Header, Bytes;
      HeaderLength(info, 0);
      ReplaceStart(Header(info.(numSamples := 0)), Header(info), Bytes(values));
      WriteWaveInfo(file, info);
      f := file;
      file := null;
    }
  }

  lemma ReplaceStart(a: seq<Byte>, b: seq<Byte>, data: seq<Byte>)
    requires |a| == |b|
    ensures Overwritten(a + data, 0, b) == b + data
  {
  }

  class WaveReader {
    var file: File?
    var info: WaveInfo
    var samplePos: Word

    constructor (f: File)
      requires ParseInfo(f.bytes, f.pos) != DivisionByZero
      modifies f
      ensures f.bytes == old(f.bytes) && samplePos == 0
      ensures var parsed := ParseInfo(f.bytes, old(f.pos));
        && info == (if parsed.Format? then parsed.info else NO_INFO)
        && file == (if info.numChannels > 0 && info.sampleRate > 0 then f else null)
        && (parsed.Format? ==> f.pos == parsed.dataPos)
    {
      file := null;
      info := NO_INFO;
      samplePos := 0;
      new;
      var parsed := ReadInfo(f);
      if parsed.Format? {
        info := parsed.info;
      }
      if info.IsValid() {
        file := f;
      }
    }

    /** The number of samples that a read asks for; the difference is unsigned. */
    function SamplesToRead(room: nat): nat
      reads this
    {
      var left := (info.numSamples as int - samplePos) % 0x1_0000_0000;
      if left < room then left else room
    }

    /** Reads what the format still promises or the target has room for, in whole passes. The
        sample frames that the file still holds are the values, whatever chunk they belong to. */
    method Read(target: array2<Word>, ghost values: seq<Word>, ghost available: nat, ghost rest: seq<Byte>)
      returns (samplesRead: nat)
      requires file != null && IsFloat32(info)
      requires 0 < target.Length0 <= info.numChannels
      requires file.pos <= |file.bytes| && file.bytes[file.pos..] == Bytes(values) + rest
      requires |values| == available * info.numChannels && |rest| < 4 * info.numChannels
      requires SamplesReached(0, available, FramesPerPass(info, SamplesToRead(target.Length1)), SamplesToRead(target.Length1))
               <= target.Length1
      modifies this`samplePos, file, target
      ensures samplesRead == SamplesReached(
                0, available, FramesPerPass(info, old(SamplesToRead(target.Length1))), old(SamplesToRead(target.Length1)))
      ensures samplePos == (old(samplePos) + samplesRead) % 0x1_0000_0000
      ensures file.bytes == old(file.bytes) && file.pos <= |file.bytes|
      ensures Scattered(target, samplesRead, values, info.numChannels)
      ensures samplesRead < available ==> LeftBehind(file.bytes[file.pos..], values, samplesRead, info.numChannels, rest)
    {
      hide Bytes, SamplesReached, Scattered, LeftBehind;
      var numSamplesToRead := SamplesToRead(target.Length1);
      var buffer := new Word[BufferValues(info, numSamplesToRead)];
      PassFrames(info, numSamplesToRead);
      samplesRead := ReadDeinterleaveConvert(
        file, buffer, numSamplesToRead, info.numChannels, target, values, available, rest);
      samplePos := (samplePos + samplesRead) % 0x1_0000_0000;
    }
  }

  lemma PassFrames(info: WaveInfo, numSamples: nat)
    requires IsFloat32(info)
    ensures BufferValues(info, numSamples) / info.numChannels == FramesPerPass(info, numSamples)
  {
    QuotientOfFrames(FramesPerPass(info, numSamples), info.numChannels);
  }

  /** A read whose samples fit one buffer stays within the target, whatever follows in the file. A
      longer one does exactly if the file ends in time or whole buffers do not reach over the
      target. */
  lemma ReadsInside(info: WaveInfo, available: nat, numSamples: nat, room: nat)
    requires IsFloat32(info) && numSamples <= room
    ensures var perPass := FramesPerPass(info, numSamples);
      SamplesReached(0, available, perPass, numSamples) <= room
      <==> numSamples <= MAX_BUFFER_SIZE / 4 / info.numChannels || available <= room
           || WholePasses(numSamples, perPass) <= room
  {
    var perPass := FramesPerPass(info, numSamples);
    ReadStaysInside(available, perPass, numSamples, room);
    if 0 < numSamples <= MAX_BUFFER_SIZE / 4 / info.numChannels {
      QuotientIs(numSamples + perPass - 1, 1, perPass - 1, perPass);
    } else if numSamples == 0 {
      QuotientIs(perPass - 1, 0, perPass - 1, perPass);
    }
  }

  /** A legal file on which a read writes over the end of its target: two channels, one sample more
      than fits the buffer, and another chunk of at least 64 KiB behind the data. */
  lemma TrailingChunkReachesOver(values: seq<Word>, trailing: seq<Byte>, rate: Word)
    returns (inFile: seq<Word>, available: nat, rest: seq<Byte>)
    requires |values| == 2 * 8193 && |trailing| >= MAX_BUFFER_SIZE
    ensures var info := WaveInfo(2, 8193, rate, true, 32);
      && IsFloat32(info)
      && ParseInfo(Header(info) + (Bytes(values) + trailing), 0) == Format(info, |Header(info)|)
      && Bytes(values) + trailing == Bytes(inFile) + rest && |inFile| == available * 2 && |rest| < 8
      && SamplesReached(0, available, FramesPerPass(info, 8193), 8193) == 2 * 8192 > 8193
  {
    hide ParseInfo, Header, Bytes, BlockAlign;
    var info := WaveInfo(2, 8193, rate, true, 32);
    HeaderRoundTrip(info, Bytes(values) + trailing);
    inFile, available, rest := SplitFrames(Bytes(values) + trailing, 2);
    assert FramesPerPass(info, 8193) == 8192;
    TwoPasses(available);
  }

  lemma TwoPasses(available: nat)
    requires available >= 2 * 8192
    ensures SamplesReached(0, available, 8192, 8193) == 2 * 8192
  {
    assert SamplesReached(0, available, 8192, 8193) == SamplesReached(8192, available, 8192, 8193);
    assert SamplesReached(2 * 8192, available, 8192, 8193) == 2 * 8192;
  }

  /** A file that goes on behind the sample data can make a read go on too: it delivers exactly
      the samples asked for exactly if there are no more, or they are whole passes. */
  lemma ReadsExactly(available: nat, perPass: nat, numSamples: nat)
    requires perPass > 0 && numSamples <= available
    ensures SamplesReached(0, available, perPass, numSamples) == numSamples
       <==> available == numSamples || WholePasses(numSamples, perPass) == numSamples
  {
    ReachedByPasses(0, 0, available, perPass, numSamples);
    var passes := PassesCover(numSamples, perPass);
  }

  // The round trip.

  /** The blocks one after the other, channel by channel. */
  ghost function Joined(blocks: seq<Block>, channels: nat): (block: Block)
    requires forall b :: 0 <= b < |blocks| ==> |blocks[b]| == channels
    ensures |block| == channels
  {
    if blocks == [] then seq(channels, _ => [])
    else Append(Joined(blocks[..|blocks| - 1], channels), blocks[|blocks| - 1])
  }

  ghost function Append(a: Block, b: Block): (block: Block)
    requires |a| == |b|
    ensures |block| == |a| && forall c :: 0 <= c < |a| ==> block[c] == a[c] + b[c]
  {
    seq(|a|, c requires 0 <= c < |a| => a[c] + b[c])
  }

  lemma InterleavedAppend(a: Block, n: nat, b: Block, m: nat)
    requires a != [] && |b| == |a| && IsBlock(a, |a|, n) && IsBlock(b, |a|, m)
    ensures IsBlock(Append(a, b), |a|, n + m)
    ensures Interleaved(Append(a, b), 0, n + m) == Interleaved(a, 0, n) + Interleaved(b, 0, m)
  {
    hide Interleaved;
    var both := Append(a, b);
    InterleavedSplit(both, 0, n, n + m);
    InterleavedInterleaves(a, 0, n);
    InterleavedInterleaves(b, 0, m);
    InterleavedInterleaves(both, 0, n);
    InterleavedInterleaves(both, n, n + m);
    assert Interleaves(Interleaved(a, 0, n), both, 0, n);
    InterleavingIsUnique(Interleaved(a, 0, n), Interleaved(both, 0, n), both, 0, n);
    assert Interleaves(Interleaved(b, 0, m), both, n, n + m);
    InterleavingIsUnique(Interleaved(b, 0, m), Interleaved(both, n, n + m), both, n, n + m);
  }

  function Total(lengths: seq<nat>): nat {
    if lengths == [] then 0 else Total(lengths[..|lengths| - 1]) + lengths[|lengths| - 1]
  }

  ghost predicate AreBlocks(blocks: seq<Block>, lengths: seq<nat>, channels: nat) {
    && |lengths| == |blocks|
    && (forall b :: 0 <= b < |blocks| ==> |blocks[b]| == channels)
    && (forall b :: 0 <= b < |blocks| ==> IsBlock(blocks[b], channels, lengths[b]))
  }

  /** Writes blocks to a new file and releases it: the header with the final number of samples,
      then the interleaved samples of all blocks. */
  method WriteFile(info: WaveInfo, blocks: seq<Block>, lengths: seq<nat>) returns (f: File)
    requires IsFloat32(info) && AreBlocks(blocks, lengths, info.numChannels) && Total(lengths) < 0x1_0000_0000
    ensures fresh(f)
    ensures IsBlock(Joined(blocks, info.numChannels), info.numChannels, Total(lengths))
    ensures f.bytes == Header(info.(numSamples := Total(lengths)))
                       + Bytes(Interleaved(Joined(blocks, info.numChannels), 0, Total(lengths)))
  {
    hide Bytes, Interleaved, Header, Joined, Total;
    var channels := info.numChannels;
    var file := new File();
    var writer := new WaveWriter(file, info);
    NothingJoined(blocks, lengths, channels);
    for b := 0 to |blocks|
      invariant writer.Valid() && writer.file == file && fresh(file) && fresh(writer)
      invariant Total(lengths[..b]) < 0x1_0000_0000
      invariant writer.info == info.(numSamples := Total(lengths[..b]))
      invariant IsBlock(Joined(blocks[..b], channels), channels, Total(lengths[..b]))
      invariant writer.values == Interleaved(Joined(blocks[..b], channels), 0, Total(lengths[..b]))
    {
      writer.Write(blocks[b], lengths[b]);
      JoinedNext(blocks, lengths, channels, b);
    }
    assert blocks[..|blocks|] == blocks && lengths[..|blocks|] == lengths;
    f := writer.Release();
  }

  lemma NothingJoined(blocks: seq<Block>, lengths: seq<nat>, channels: nat)
    requires AreBlocks(blocks, lengths, channels) && channels > 0
    ensures Total(lengths[..0]) == 0 && IsBlock(Joined(blocks[..0], channels), channels, 0)
    ensures Interleaved(Joined(blocks[..0], channels), 0, 0) == []
  {
    assert |Interleaved(Joined(blocks[..0], channels), 0, 0)| == 0;
  }

  /** One more block. */
  lemma JoinedNext(blocks: seq<Block>, lengths: seq<nat>, channels: nat, b: nat)
    requires AreBlocks(blocks, lengths, channels) && channels > 0 && b < |blocks|
    requires IsBlock(Joined(blocks[..b], channels), channels, Total(lengths[..b]))
    ensures Total(lengths[..b + 1]) == Total(lengths[..b]) + lengths[b] <= Total(lengths)
    ensures IsBlock(Joined(blocks[..b + 1], channels), channels, Total(lengths[..b + 1]))
    ensures Interleaved(Joined(blocks[..b + 1], channels), 0, Total(lengths[..b + 1]))
         == Interleaved(Joined(blocks[..b], channels), 0, Total(lengths[..b])) + Interleaved(blocks[b], 0, lengths[b])
  {
    hide Interleaved;
    assert blocks[..b + 1][..b] == blocks[..b] && lengths[..b + 1][..b] == lengths[..b];
    InterleavedAppend(Joined(blocks[..b], channels), Total(lengths[..b]), blocks[b], lengths[b]);
    TotalOfPrefix(lengths, b + 1);
  }

  lemma {:induction false} TotalOfPrefix(lengths: seq<nat>, n: nat)
    requires n <= |lengths|
    ensures Total(lengths[..n]) <= Total(lengths)
    decreases |lengths|
  {
    if n == |lengths| {
      assert lengths[..n] == lengths;
    } else {
      TotalOfPrefix(lengths[..|lengths| - 1], n);
      assert lengths[..|lengths| - 1][..n] == lengths[..n];
    }
  }

  /** Any list of blocks, written and released, rewound, and read in one go, gives back the
      format with the number of samples and all values of every channel, if the header's fields
      can hold the sizes. */
  method WriteThenRead(info: WaveInfo, blocks: seq<Block>, lengths: seq<nat>) returns (format: WaveInfo, target: array2<Word>)
    requires IsFloat32(info) && info.sampleRate > 0 && AreBlocks(blocks, lengths, info.numChannels)
    requires Total(lengths) < 0x1_0000_0000 && Fits(info.(numSamples := Total(lengths)))
    ensures format == info.(numSamples := Total(lengths))
    ensures fresh(target) && target.Length0 == info.numChannels && target.Length1 == Total(lengths)
    ensures var all := Joined(blocks, info.numChannels);
            IsBlock(all, info.numChannels, Total(lengths))
            && forall c, i :: 0 <= c < info.numChannels && 0 <= i < Total(lengths) ==> target[c, i] == all[c][i]
  {
    hide Bytes, Interleaved, Header, ParseInfo, Index, FrameFits, Joined;
    var f := WriteFile(info, blocks, lengths);
    ghost var all := Joined(blocks, info.numChannels);
    ghost var written := info.(numSamples := Total(lengths));
    ghost var values := Interleaved(all, 0, Total(lengths));
    f.SeekTo(0);
    HeaderRoundTrip(written, Bytes(values));
    var reader := new WaveReader(f);
    format := reader.info;
    target := new Word[format.numChannels, format.numSamples];
    assert f.bytes[f.pos..] == Bytes(values);
    NothingAfter(Bytes(values));
    ReachedByPasses(0, 0, Total(lengths), FramesPerPass(format, Total(lengths)), Total(lengths));
    ghost var passes := PassesCover(Total(lengths), FramesPerPass(format, Total(lengths)));
    var samplesRead := reader.Read(target, values, Total(lengths), []);
    InterleavedInterleaves(all, 0, Total(lengths));
  }
}
