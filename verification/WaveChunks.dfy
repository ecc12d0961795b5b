/** What a written header says, field by field, and what the reader makes of headers that it did not
    write: other format tags, other chunks, padding (dsp/waveIo.cpp:38-164). */
module WaveChunks {
  import opened Sequences
  import opened WaveIo

  /** The bytes of a chunk identifier. */
  function Ascii(text: string): (r: seq<Byte>)
    requires forall i :: 0 <= i < |text| ==> text[i] as int < 128
    ensures |r| == |text| && forall i :: 0 <= i < |text| ==> r[i] == text[i] as int
  {
    seq(|text|, i requires 0 <= i < |text| => text[i] as int)
  }

  function FormatSize(info: WaveInfo): nat {
    if info.bitsPerSample > 16 then 18 else 16
  }

  predicate NeedsFactChunk(info: WaveInfo) {
    info.bitsPerSample > 16 || info.isFloatingPoint
  }

  /** The fields of a written header up to the format, byte by byte. */
  ghost predicate HasFields(bytes: seq<Byte>, info: WaveInfo) {
    var frame := info.numChannels * (info.bitsPerSample / 8);
    && |bytes| >= 36
    && bytes[0..4] == Ascii("RIFF") && bytes[8..12] == Ascii("WAVE")
    && bytes[12..16] == Ascii("fmt ") && FromLe32(bytes[16..20]) == FormatSize(info)
    && FromLe16(bytes[20..22]) == (if info.isFloatingPoint then 3 else 1)
    && FromLe16(bytes[22..24]) == info.numChannels
    && FromLe32(bytes[24..28]) == info.sampleRate
    && FromLe32(bytes[28..32]) == (info.sampleRate * frame) % 0x1_0000_0000
    && FromLe16(bytes[32..34]) == frame
    && FromLe16(bytes[34..36]) == info.bitsPerSample
  }

  /** The fields behind the format: an empty extension and the number of samples where they are
      needed, and the size of the data. */
  ghost predicate HasSizes(bytes: seq<Byte>, info: WaveInfo, at: nat) {
    && |bytes| == at + (if NeedsFactChunk(info) then 20 else 8)
    && (at == 38 ==> bytes[36..38] == [0, 0])
    && (NeedsFactChunk(info) ==>
          bytes[at..at + 4] == Ascii("fact") && FromLe32(bytes[at + 4..at + 8]) == 4
          && FromLe32(bytes[at + 8..at + 12]) == info.numSamples)
    && var end := |bytes| - 8;
       bytes[end..end + 4] == Ascii("data")
       && FromLe32(bytes[end + 4..]) == (info.numChannels * (info.bitsPerSample / 8) * info.numSamples) % 0x1_0000_0000
  }

  lemma Identifiers()
    ensures RIFF == Ascii("RIFF") && WAVE == Ascii("WAVE") && FMT == Ascii("fmt ")
    ensures FACT == Ascii("fact") && DATA == Ascii("data")
  {
  }

  lemma SubSlice(bytes: seq<Byte>, pos: nat, piece: seq<Byte>, from: nat, to: nat)
    requires HasAt(bytes, pos, piece) && from <= to <= |piece|
    ensures pos + to <= |bytes| && bytes[pos + from..pos + to] == piece[from..to]
  {
    forall k | from <= k < to ensures bytes[pos + k] == piece[k] {
      assert bytes[pos..pos + |piece|][k] == piece[k];
    }
  }

  /** A written header holds what the format says, field by field. */
  lemma HeaderFields(info: WaveInfo)
    requires FrameFits(info)
    ensures HasFields(Header(info), info) && HasSizes(Header(info), info, 20 + FormatSize(info))
  {
    hide Header, HasFields, HasSizes, FrameFits;
    NothingAfter(Header(info));
    FormatFieldsAre(info, []);
    SizeFieldsAre(info);
  }

  lemma SizeFieldsAre(info: WaveInfo)
    requires FrameFits(info)
    ensures HasSizes(Header(info), info, 20 + FormatSize(info))
  {
    hide Le32, FromLe32, BlockAlign, FormatFields, FrameFits, SampleBytes;
    hide Header, FactChunk, DataChunkHeader;
    var bytes, at := Header(info), 20 + FormatSize(info);
    HeaderPieces(info, []);
    NothingAfter(bytes);
    FactSize(info);
    HasParts(bytes, at, FactChunk(info), DataChunkHeader(info));
    DataHeaderIs(bytes, |bytes| - 8, info);
    if NeedsFactChunk(info) {
      FactChunkIs(bytes, at, info);
    }
    if info.bitsPerSample > 16 {
      ExtensionIs(info);
    }
  }

  lemma FactChunkIs(bytes: seq<Byte>, at: nat, info: WaveInfo)
    requires NeedsFactChunk(info) && HasAt(bytes, at, FactChunk(info))
    ensures at + 12 <= |bytes|
    ensures bytes[at..at + 4] == Ascii("fact") && FromLe32(bytes[at + 4..at + 8]) == 4
    ensures FromLe32(bytes[at + 8..at + 12]) == info.numSamples
  {
    hide Le32, FromLe32;
    Identifiers();
    Le32RoundTrip(4);
    Le32RoundTrip(info.numSamples);
    HasParts(bytes, at, FACT, Le32(4) + Le32(info.numSamples));
    HasParts(bytes, at + 4, Le32(4), Le32(info.numSamples));
  }

  lemma DataHeaderIs(bytes: seq<Byte>, at: nat, info: WaveInfo)
    requires FrameFits(info) && HasAt(bytes, at, DataChunkHeader(info)) && |bytes| == at + 8
    ensures bytes[at..at + 4] == Ascii("data")
    ensures FromLe32(bytes[at + 4..]) == (info.numChannels * (info.bitsPerSample / 8) * info.numSamples) % 0x1_0000_0000
  {
    hide Le32, FromLe32, SampleBytes, FrameFits;
    Identifiers();
    DataSizeWraps(info);
    Le32RoundTrip(SampleBytes(info));
    HasParts(bytes, at, DATA, Le32(SampleBytes(info)));
    assert bytes[at + 4..] == bytes[at + 4..at + 8];
  }

  lemma DataSizeWraps(info: WaveInfo)
    requires FrameFits(info)
    ensures SampleBytes(info) == (info.numChannels * (info.bitsPerSample / 8) * info.numSamples) % 0x1_0000_0000
  {
    hide SampleBytes, BlockAlign;
    SampleBytesAre(info);
    BlockAlignIs(info);
  }

  lemma ExtensionIs(info: WaveInfo)
    requires info.bitsPerSample > 16
    ensures |Header(info)| >= 38 && Header(info)[36..38] == [0, 0]
  {
    hide Le32, FormatFields, FactChunk, DataChunkHeader;
    assert Header(info)[36..38] == Le16(0);
  }

  lemma FormatFieldsAre(info: WaveInfo, data: seq<Byte>)
    requires FrameFits(info)
    ensures HasFields(Header(info) + data, info)
  {
    Identifiers();
    hide Le16, Le32, FromLe16, FromLe32, Header, BlockAlign, FormatFields, FactChunk, DataChunkHeader, FrameFits;
    var bytes, fields := Header(info) + data, FormatFields(info);
    HeaderPieces(info, data);
    FieldsRoundTrip(info);
    ByteRateRoundTrip(info);
    BlockAlignIs(info);
    ChannelsFit(info);
    Le32RoundTrip(WaveChunkSize(info));
    HasParts(bytes, 12, FMT, Le32(WaveChunkSize(info)));
    SubSlice(bytes, 20, fields, 0, 2);
    SubSlice(bytes, 20, fields, 2, 4);
    SubSlice(bytes, 20, fields, 4, 8);
    SubSlice(bytes, 20, fields, 8, 12);
    SubSlice(bytes, 20, fields, 12, 14);
    SubSlice(bytes, 20, fields, 14, 16);
  }

  lemma Commutes(a: int, b: int)
    ensures a * b == b * a
  {
  }

  lemma ByteRateRoundTrip(info: WaveInfo)
    requires FrameFits(info)
    ensures FromLe32(FormatFields(info)[8..12])
         == (info.sampleRate * (info.numChannels * (info.bitsPerSample / 8))) % 0x1_0000_0000
  {
    hide Le16, Le32, FromLe32, BlockAlign, FrameFits;
    var rate := BlockAlign(info) * info.sampleRate;
    assert FormatFields(info)[8..12] == Le32(rate);
    Le32RoundTrip(rate);
    BlockAlignIs(info);
    Commutes(BlockAlign(info), info.sampleRate);
  }

  /** The header's first chunk states the size of the file but for its first eight bytes. That size
      is right exactly if there is no fact chunk and the data need no padding: the twelve bytes of
      a fact chunk are counted even where there is none, but those of the file form and of the
      format chunk's header never are. */
  lemma FileSizeIsRightIff(info: WaveInfo, data: seq<Byte>)
    requires Fits(info) && |data| == info.numChannels * (info.bitsPerSample / 8) * info.numSamples
    requires |Header(info) + data| < 0x1_0000_0000
    ensures var file := Header(info) + data;
            FromLe32(file[4..8]) == |file| - 8 <==> info.bitsPerSample <= 16 && !info.isFloatingPoint && |data| % 2 == 0
  {
    hide Header, FromLe32, FormatFields, BlockAlign, FrameFits, SampleBytes, FactChunk;
    HeaderPieces(info, data);
    FactSize(info);
    StatedSize(info, data);
    DataSizeIs(info, |data|);
    PaddedSize(|data|, WaveChunkSize(info), |FactChunk(info)|);
  }

  lemma FactSize(info: WaveInfo)
    ensures |FactChunk(info)| == if info.bitsPerSample > 16 || info.isFloatingPoint then 12 else 0
  {
  }

  lemma DataSizeIs(info: WaveInfo, length: nat)
    requires Fits(info) && length == info.numChannels * (info.bitsPerSample / 8) * info.numSamples
    ensures SampleBytes(info) == length
  {
    BlockAlignIs(info);
    SampleBytesAre(info);
  }

  lemma StatedSize(info: WaveInfo, data: seq<Byte>)
    ensures |Header(info) + data| >= 8
    ensures FromLe32((Header(info) + data)[4..8])
         == (20 + (SampleBytes(info) + 1) / 2 * 2 + WaveChunkSize(info)) % 0x1_0000_0000
  {
    hide Le32, FromLe32, SampleBytes, WaveChunkSize, FormatChunk, FactChunk, DataChunkHeader;
    var size := 8 + (SampleBytes(info) + 1) / 2 * 2 + 12 + WaveChunkSize(info);
    assert (Header(info) + data)[4..8] == Le32(size);
    Le32RoundTrip(size);
  }

  lemma PaddedSize(length: nat, waveChunkSize: nat, fact: nat)
    requires fact == 0 || fact == 12
    requires 28 + waveChunkSize + fact + length < 0x1_0000_0000
    ensures (20 + (length + 1) / 2 * 2 + waveChunkSize) % 0x1_0000_0000 == 28 + waveChunkSize + fact + length - 8
       <==> fact == 0 && length % 2 == 0
  {
  }

  /** A file with another format tag is refused; apart from that the tag only decides whether the
      samples are taken for floating point. */
  lemma TagDecides(info: WaveInfo, data: seq<Byte>, tag: int)
    requires Fits(info) && 0 <= tag < 0x1_0000
    ensures |Header(info) + data| >= 36
    ensures ParseInfo(Overwritten(Header(info) + data, 20, Le16(tag)), 0)
         == if tag == 1 then Format(info.(isFloatingPoint := false), |Header(info)|)
            else if tag == 3 then Format(info.(isFloatingPoint := true), |Header(info)|)
            else NotWave
  {
    hide Le16, Le32, FindChunk, ParseData, SampleBytes, FormatFields, FactChunk, FromLe32, BlockAlign, FrameFits, Header, HasAt;
    HeaderPieces(info, data);
    var bytes := Overwritten(Header(info) + data, 20, Le16(tag));
    TagPieces(info, data, tag);
    FindsHere(bytes, 12, FMT, WaveChunkSize(info), FMT);
    FindsData(bytes, 20 + WaveChunkSize(info), info);
    TaggedData(info, tag, |Header(info)|);
  }

  lemma TaggedData(info: WaveInfo, tag: int, at: nat)
    requires Fits(info) && 0 <= tag < 0x1_0000
    ensures ParseData(Le16(tag) + FormatFields(info)[2..], Found(SampleBytes(info), at))
         == if tag == 1 then Format(info.(isFloatingPoint := false), at)
            else if tag == 3 then Format(info.(isFloatingPoint := true), at)
            else NotWave
  {
    hide Le16, SampleBytes, FormatFields, FromLe16, FromLe32, FramesIn, BlockAlign, FrameFits;
    FieldsRoundTrip(info);
    BlockAlignIs(info);
    ChannelsFit(info);
    SizesRoundTrip(info);
    Le16RoundTrip(tag);
    TaggedFields(Le16(tag), FormatFields(info));
  }

  lemma TaggedFields(tag: seq<Byte>, fields: seq<Byte>)
    requires |tag| == 2 && |fields| == 16
    ensures var tagged := tag + fields[2..];
      && |tagged| == 16 && tagged[0..2] == tag && tagged[2..4] == fields[2..4] && tagged[4..8] == fields[4..8]
      && tagged[12..14] == fields[12..14] && tagged[14..16] == fields[14..16]
  {
  }

  lemma KeptOutside(bytes: seq<Byte>, pos: nat, data: seq<Byte>, at: nat, piece: seq<Byte>)
    requires pos + |data| <= |bytes| && HasAt(bytes, at, piece)
    requires at + |piece| <= pos || pos + |data| <= at
    ensures HasAt(Overwritten(bytes, pos, data), at, piece)
  {
    var after := Overwritten(bytes, pos, data);
    forall k | 0 <= k < |piece| ensures after[at + k] == piece[k] {
      assert bytes[at..at + |piece|][k] == piece[k];
    }
  }

  /** What another tag leaves of the header. */
  lemma TagPieces(info: WaveInfo, data: seq<Byte>, tag: int)
    requires |Header(info) + data| >= 36
    ensures var bytes := Overwritten(Header(info) + data, 20, Le16(tag));
      && |bytes| >= 36 && ReadAt(bytes, 0, 8)[..4] == RIFF && ReadAt(bytes, 8, 4) == WAVE
      && HasAt(bytes, 12, FMT + Le32(WaveChunkSize(info)))
      && ReadAt(bytes, 20, 16) == Le16(tag) + FormatFields(info)[2..]
      && HasAt(bytes, 20 + WaveChunkSize(info), FactChunk(info) + DataChunkHeader(info))
  {
    hide Le16, Le32, Header, FormatFields, FactChunk, DataChunkHeader;
    var before := Header(info) + data;
    HeaderPieces(info, data);
    KeptOutside(before, 20, Le16(tag), 0, RIFF);
    KeptOutside(before, 20, Le16(tag), 8, WAVE);
    KeptOutside(before, 20, Le16(tag), 12, FMT + Le32(WaveChunkSize(info)));
    KeptOutside(before, 20, Le16(tag), 20 + WaveChunkSize(info), FactChunk(info) + DataChunkHeader(info));
    SubSlice(before, 20, FormatFields(info), 2, 16);
    assert before[22..36] == FormatFields(info)[2..];
  }

  /** A chunk of a file, with any identifier. */
  datatype Chunk = Chunk(id: seq<Byte>, payload: seq<Byte>)

  ghost predicate IsChunk(c: Chunk) {
    |c.id| == 4 && |c.payload| < 0x1_0000_0000
  }

  function ChunkBytes(chunks: seq<Chunk>): seq<Byte> {
    if chunks == [] then []
    else chunks[0].id + Le32(|chunks[0].payload|) + (chunks[0].payload + ChunkBytes(chunks[1..]))
  }

  ghost predicate Others(chunks: seq<Chunk>, id: seq<Byte>) {
    forall k :: 0 <= k < |chunks| ==> IsChunk(chunks[k]) && chunks[k].id != id
  }

  /** Chunks with other identifiers are skipped, whatever they hold. */
  lemma {:induction false} SkipsChunks(bytes: seq<Byte>, pos: nat, chunks: seq<Chunk>, id: seq<Byte>)
    requires HasAt(bytes, pos, ChunkBytes(chunks)) && Others(chunks, id)
    ensures FindChunk(bytes, pos, 0, id) == FindChunk(bytes, pos + |ChunkBytes(chunks)|, 0, id)
    decreases |chunks|
  {
    hide Le32, FindChunk, HasAt;
    if chunks != [] {
      var c, rest := chunks[0], chunks[1..];
      HasParts(bytes, pos, c.id + Le32(|c.payload|), c.payload + ChunkBytes(rest));
      HasParts(bytes, pos + 8, c.payload, ChunkBytes(rest));
      FindsHere(bytes, pos, c.id, |c.payload|, id);
      SkipFirst(bytes, pos + 8, |c.payload|, id);
      SkipsChunks(bytes, pos + 8 + |c.payload|, rest, id);
    }
  }

  /** A file may hold any other chunks before the format and before the data: it reads as the
      format says, and the data start behind their own header. */
  lemma OtherChunksAreSkipped(info: WaveInfo, riffSize: seq<Byte>, before: seq<Chunk>, between: seq<Chunk>, data: seq<Byte>)
    requires Fits(info) && |riffSize| == 4 && Others(before, FMT) && Others(between, DATA)
    ensures var head := RIFF + riffSize + WAVE + ChunkBytes(before) + FormatChunk(info) + ChunkBytes(between) + DataChunkHeader(info);
            ParseInfo(head + data, 0) == Format(info, |head|)
  {
    hide Le32, FindChunk, ParseData, SampleBytes, FormatFields, DataChunkHeader, FormatChunk, ChunkBytes, FromLe32, BlockAlign, FrameFits;
    var head := RIFF + riffSize + WAVE + ChunkBytes(before) + FormatChunk(info) + ChunkBytes(between) + DataChunkHeader(info);
    var bytes := head + data;
    var format := 12 + |ChunkBytes(before)|;
    var behind := format + |FormatChunk(info)|;
    ChunksInPlace(info, riffSize, before, between, data);
    SkipsChunks(bytes, 12, before, FMT);
    FormatPieces(bytes, format, info);
    FindsHere(bytes, format, FMT, WaveChunkSize(info), FMT);
    SkipsChunks(bytes, behind, between, DATA);
    FindsHere(bytes, behind + |ChunkBytes(between)|, DATA, SampleBytes(info), DATA);
    ParsedFields(bytes, format + 8, info, |head|);
  }

  lemma ChunksInPlace(info: WaveInfo, riffSize: seq<Byte>, before: seq<Chunk>, between: seq<Chunk>, data: seq<Byte>)
    requires |riffSize| == 4
    ensures var head := RIFF + riffSize + WAVE + ChunkBytes(before) + FormatChunk(info) + ChunkBytes(between) + DataChunkHeader(info);
            var bytes, format := head + data, 12 + |ChunkBytes(before)|;
      && ReadAt(bytes, 0, 8)[..4] == RIFF && ReadAt(bytes, 8, 4) == WAVE
      && HasAt(bytes, 12, ChunkBytes(before)) && HasAt(bytes, format, FormatChunk(info))
      && HasAt(bytes, format + |FormatChunk(info)|, ChunkBytes(between))
      && HasAt(bytes, format + |FormatChunk(info)| + |ChunkBytes(between)|, DATA + Le32(SampleBytes(info)))
      && |head| == format + |FormatChunk(info)| + |ChunkBytes(between)| + 8
  {
    hide Le32, SampleBytes, FormatChunk, ChunkBytes;
  }

  /** The parser's verdict on a format chunk's fields. */
  lemma ParsedFields(bytes: seq<Byte>, pos: nat, info: WaveInfo, at: nat)
    requires Fits(info) && HasAt(bytes, pos, FormatFields(info))
    ensures ReadAt(bytes, pos, 16) == FormatFields(info)
    ensures ParseData(ReadAt(bytes, pos, 16), Found(SampleBytes(info), at)) == Format(info, at)
  {
    hide SampleBytes, FormatFields, FromLe16, FromLe32, FramesIn, BlockAlign, FrameFits;
    FieldsRoundTrip(info);
    BlockAlignIs(info);
    ChannelsFit(info);
    SizesRoundTrip(info);
  }

  /** A chunk of odd size is followed by a byte of padding in a RIFF file, which the reader does not
      skip: with such a chunk between format and data, less than 16 MiB of data are never found. */
  lemma PaddedChunkHidesData(info: WaveInfo, riffSize: seq<Byte>, odd: Chunk, data: seq<Byte>)
    requires |riffSize| == 4 && Others([odd], DATA) && |odd.payload| % 2 == 1
    requires |data| == SampleBytes(info) < 0x100_0000
    ensures ParseInfo(RIFF + riffSize + WAVE + FormatChunk(info) + ChunkBytes([odd]) + [0] + DataChunkHeader(info) + data, 0) == NotWave
  {
    hide Le32, FindChunk, SampleBytes, FormatFields, FormatChunk, ChunkBytes, FromLe16, FromLe32, BlockAlign;
    var bytes := RIFF + riffSize + WAVE + FormatChunk(info) + ChunkBytes([odd]) + [0] + DataChunkHeader(info) + data;
    PaddedInPlace(info, riffSize, odd, data);
    FormatPieces(bytes, 12, info);
    FindsHere(bytes, 12, FMT, WaveChunkSize(info), FMT);
    SkipsChunks(bytes, 12 + |FormatChunk(info)|, [odd], DATA);
    MisreadHeader(bytes, 12 + |FormatChunk(info)| + |ChunkBytes([odd])|, SampleBytes(info), data);
  }

  lemma PaddedInPlace(info: WaveInfo, riffSize: seq<Byte>, odd: Chunk, data: seq<Byte>)
    requires |riffSize| == 4
    ensures var bytes := RIFF + riffSize + WAVE + FormatChunk(info) + ChunkBytes([odd]) + [0] + DataChunkHeader(info) + data;
            var pad := 12 + |FormatChunk(info)| + |ChunkBytes([odd])|;
      && ReadAt(bytes, 0, 8)[..4] == RIFF && ReadAt(bytes, 8, 4) == WAVE
      && HasAt(bytes, 12, FormatChunk(info)) && HasAt(bytes, 12 + |FormatChunk(info)|, ChunkBytes([odd]))
      && pad <= |bytes| && bytes[pad..] == [0] + DataChunkHeader(info) + data
  {
    hide Le32, SampleBytes, FormatChunk, ChunkBytes;
  }

  /** A header read one byte too early skips over the end of the file. */
  lemma MisreadHeader(bytes: seq<Byte>, pos: nat, size: Word, data: seq<Byte>)
    requires pos <= |bytes| && bytes[pos..] == [0] + (DATA + Le32(size)) + data && |data| == size < 0x100_0000
    ensures FindChunk(bytes, pos, 0, DATA) == NotFound
  {
    var header := ReadAt(bytes, pos, 8);
    assert header == bytes[pos..][..8];
    assert header[0] == 0 && header[4] == 0x61;
    assert header[5] == size % 256 && header[6] == size / 256 % 256 && header[7] == size / 256 / 256 % 256;
    assert FromLe32(header[4..]) == 0x61 + 256 * size;
  }
}
