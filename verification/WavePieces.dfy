/** WaveReader::read (dsp/waveIo.cpp:308-355), called again and again: a file is read piece by piece. */
module WavePieces {
  import opened DivMod
  import opened Sequences
  import opened WaveIo

  function Least(a: nat, b: nat): nat {
    if a < b then a else b
  }

  /** A read of no more samples than fit the buffer and than the file still holds is one pass. */
  lemma OnePass(info: WaveInfo, available: nat, numSamples: nat)
    requires IsFloat32(info) && numSamples <= MAX_BUFFER_SIZE / 4 / info.numChannels && numSamples <= available
    ensures SamplesReached(0, available, FramesPerPass(info, numSamples), numSamples) == numSamples
  {
  }

  /** Whole sample frames of the data and of what follows them. */
  lemma FramesAhead(data: seq<Word>, trailing: seq<Byte>, left: nat, channels: nat)
    returns (values: seq<Word>, available: nat, rest: seq<Byte>)
    requires channels > 0 && |data| == left * channels
    ensures Bytes(data) + trailing == Bytes(values) + rest && |values| == available * channels && |rest| < 4 * channels
    ensures left <= available && data <= values && (left == available ==> values == data)
    ensures Bytes(values[|data|..]) + rest == trailing
  {
    hide Bytes;
    var extra, more;
    extra, more, rest := SplitFrames(trailing, channels);
    values, available := data + extra, left + more;
    FramesAdd(left, more, channels);
    BytesConcat(data, extra);
    AppendAll(Bytes(data), Bytes(extra), rest);
    assert values[|data|..] == extra;
    if more == 0 {
      assert extra == [];
    }
  }

  /** What a read leaves of the data, seen from their start. */
  lemma DataLeft(bytes: seq<Byte>, data: seq<Word>, trailing: seq<Byte>, values: seq<Word>, done: nat, channels: nat, rest: seq<Byte>)
    requires LeftBehind(bytes, values, done, channels, rest) && done * channels <= |data| && data <= values
    requires Bytes(values[|data|..]) + rest == trailing
    ensures bytes == Bytes(data[done * channels..]) + trailing
  {
    hide Bytes;
    var n := done * channels;
    assert values[n..] == data[n..] + values[|data|..];
    BytesConcat(data[n..], values[|data|..]);
    AppendAll(Bytes(data[n..]), Bytes(values[|data|..]), rest);
  }

  /** A piece holds the samples of the data from `from` on: all channels of a sample lie side by
      side. */
  ghost predicate HoldsSamples(piece: array2<Word>, count: nat, data: seq<Word>, from: nat, channels: nat)
    reads piece
  {
    && piece.Length0 == channels && count <= piece.Length1
    && forall c, i :: 0 <= c < channels && 0 <= i < count ==>
         0 <= (from + i) * channels + c < |data| && piece[c, i] == data[(from + i) * channels + c]
  }

  lemma ScatteredHolds(piece: array2<Word>, count: nat, values: seq<Word>, data: seq<Word>, from: nat, channels: nat)
    requires piece.Length0 == channels && Scattered(piece, count, values, channels)
    requires from * channels <= |data| && data[from * channels..] <= values && count * channels <= |data| - from * channels
    ensures HoldsSamples(piece, count, data, from, channels)
  {
    forall c, i | 0 <= c < channels && 0 <= i < count
      ensures 0 <= (from + i) * channels + c < |data| && piece[c, i] == data[(from + i) * channels + c]
    {
      IndexIsUnique(i, channels, c);
      IndexGrows(i, count, channels, c);
      IndexShift(from, i, channels, c);
      var k := Index(i, channels, c);
      assert k < |data| - from * channels;
      assert values[k] == data[from * channels..][k] == data[from * channels + k];
    }
  }

  /** A reader in the middle of the data: unless they are all read, the rest of them lies ahead. */
  ghost predicate InData(reader: WaveReader, data: seq<Word>, trailing: seq<Byte>)
    reads reader, reader.file
  {
    && reader.file != null && IsFloat32(reader.info)
    && reader.samplePos <= reader.info.numSamples && |data| == reader.info.numSamples * reader.info.numChannels
    && reader.file.pos <= |reader.file.bytes|
    && (reader.samplePos < reader.info.numSamples ==>
          LeftBehind(reader.file.bytes[reader.file.pos..], data, reader.samplePos, reader.info.numChannels, trailing))
  }

  /** The sample frames ahead of a reader in the data. */
  lemma FramesAheadOf(reader: WaveReader, data: seq<Word>, trailing: seq<Byte>)
    returns (values: seq<Word>, available: nat, rest: seq<Byte>)
    requires InData(reader, data, trailing)
    ensures var channels, from := reader.info.numChannels, reader.samplePos;
      && reader.file.bytes[reader.file.pos..] == Bytes(values) + rest
      && |values| == available * channels && |rest| < 4 * channels
      && from * channels <= |data| && reader.info.numSamples - from <= available
      && (from < reader.info.numSamples ==>
            data[from * channels..] <= values && Bytes(values[|data| - from * channels..]) + rest == trailing)
  {
    hide Bytes;
    var channels, from := reader.info.numChannels, reader.samplePos;
    FramesAdd(reader.info.numSamples - from, from, channels);
    ProductIsMonotone(0, reader.info.numSamples - from, channels);
    if from < reader.info.numSamples {
      values, available, rest := FramesAhead(data[from * channels..], trailing, reader.info.numSamples - from, channels);
    } else {
      values, available, rest := SplitFrames(reader.file.bytes[reader.file.pos..], channels);
    }
  }

  lemma PartOfData(length: nat, numSamples: nat, from: nat, count: nat, channels: nat)
    requires length == numSamples * channels && from + count <= numSamples
    ensures from * channels <= length && count * channels <= length - from * channels
    ensures (from + count) * channels == from * channels + count * channels
  {
    FramesAdd(from, count, channels);
    FramesAdd(numSamples - from - count, from + count, channels);
    ProductIsMonotone(0, numSamples - from - count, channels);
  }

  lemma NothingHeld(piece: array2<Word>, data: seq<Word>, from: nat, channels: nat)
    requires piece.Length0 == channels
    ensures HoldsSamples(piece, 0, data, from, channels)
  {
  }

  /** What a read leaves of the data. */
  lemma MoreOfData(bytes: seq<Byte>, data: seq<Word>, trailing: seq<Byte>, values: seq<Word>,
                   from: nat, count: nat, numSamples: nat, channels: nat, rest: seq<Byte>)
    requires |data| == numSamples * channels && from + count <= numSamples && from * channels <= |data|
    requires data[from * channels..] <= values && Bytes(values[|data| - from * channels..]) + rest == trailing
    requires LeftBehind(bytes, values, count, channels, rest)
    ensures LeftBehind(bytes, data, from + count, channels, trailing)
  {
    hide Bytes;
    PartOfData(|data|, numSamples, from, count, channels);
    var ahead := data[from * channels..];
    DataLeft(bytes, ahead, trailing, values, count, channels, rest);
    assert ahead[count * channels..] == data[(from + count) * channels..];
  }

  /** What a read of `count` samples comes to, seen from the data. */
  lemma PieceDone(piece: array2<Word>, count: nat, data: seq<Word>, trailing: seq<Byte>, values: seq<Word>, rest: seq<Byte>,
                  from: nat, numSamples: nat, channels: nat, left: seq<Byte>)
    requires |data| == numSamples * channels && from + count <= numSamples && from * channels <= |data|
    requires from < numSamples ==>
               data[from * channels..] <= values && Bytes(values[|data| - from * channels..]) + rest == trailing
    requires piece.Length0 == channels && Scattered(piece, count, values, channels)
    requires from + count < numSamples ==> LeftBehind(left, values, count, channels, rest)
    ensures HoldsSamples(piece, count, data, from, channels)
    ensures from + count < numSamples ==> LeftBehind(left, data, from + count, channels, trailing)
  {
    hide Bytes, Scattered, HoldsSamples, LeftBehind;
    if from < numSamples {
      PartOfData(|data|, numSamples, from, count, channels);
      ScatteredHolds(piece, count, values, data, from, channels);
      if from + count < numSamples {
        MoreOfData(left, data, trailing, values, from, count, numSamples, channels, rest);
      }
    } else {
      NothingHeld(piece, data, from, channels);
    }
  }

  lemma WantedIs(reader: WaveReader, room: nat)
    requires reader.samplePos <= reader.info.numSamples
    ensures reader.SamplesToRead(room) == Least(room, reader.info.numSamples - reader.samplePos)
  {
  }

  /** Reads the next piece, which fits the buffer. */
  method ReadPiece(reader: WaveReader, room: nat, ghost data: seq<Word>, ghost trailing: seq<Byte>)
    returns (piece: array2<Word>, count: nat)
    requires InData(reader, data, trailing) && room <= MAX_BUFFER_SIZE / 4 / reader.info.numChannels
    modifies reader`samplePos, reader.file
    ensures InData(reader, data, trailing)
    ensures fresh(piece) && count == Least(room, reader.info.numSamples - old(reader.samplePos))
    ensures reader.samplePos == old(reader.samplePos) + count
    ensures HoldsSamples(piece, count, data, old(reader.samplePos), reader.info.numChannels)
  {
    hide Bytes, Scattered, SamplesReached, FramesPerPass, LeftBehind, HoldsSamples;
    ghost var channels, from, numSamples := reader.info.numChannels, reader.samplePos, reader.info.numSamples;
    ghost var values, available, rest := FramesAheadOf(reader, data, trailing);
    piece := new Word[reader.info.numChannels, room];
    WantedIs(reader, room);
    OnePass(reader.info, available, Least(room, numSamples - from));
    count := reader.Read(piece, values, available, rest);
    PieceDone(piece, count, data, trailing, values, rest, from, numSamples, channels, reader.file.bytes[reader.file.pos..]);
  }

  /** The samples that the pieces before a piece have room for, as far as the data go. */
  function SamplesBefore(rooms: seq<nat>, k: nat, numSamples: nat): nat
    requires k <= |rooms|
  {
    Least(numSamples, Total(rooms[..k]))
  }

  /** Reads a new reader's file piece by piece, each of which fits the buffer: whatever follows the
      data in the file, the pieces are consecutive parts of the data, each as long as its room
      unless the data end, and nothing once all are read. */
  method ReadPieces(reader: WaveReader, rooms: seq<nat>, ghost data: seq<Word>, ghost trailing: seq<Byte>)
    returns (pieces: seq<array2<Word>>, counts: seq<nat>)
    requires reader.file != null && IsFloat32(reader.info) && reader.samplePos == 0
    requires reader.file.pos <= |reader.file.bytes| && reader.file.bytes[reader.file.pos..] == Bytes(data) + trailing
    requires |data| == reader.info.numSamples * reader.info.numChannels
    requires forall k :: 0 <= k < |rooms| ==> rooms[k] <= MAX_BUFFER_SIZE / 4 / reader.info.numChannels
    modifies reader`samplePos, reader.file
    ensures |pieces| == |counts| == |rooms|
    ensures forall k :: 0 <= k < |rooms| ==>
              var before := SamplesBefore(rooms, k, reader.info.numSamples);
              && counts[k] == Least(rooms[k], reader.info.numSamples - before)
              && HoldsSamples(pieces[k], counts[k], data, before, reader.info.numChannels)
    ensures Total(counts) == reader.samplePos == Least(reader.info.numSamples, Total(rooms))
  {
    hide Bytes, HoldsSamples, LeftBehind, Total;
    ghost var channels, numSamples := reader.info.numChannels, reader.info.numSamples;
    pieces, counts := [], [];
    NothingRead(rooms, data, trailing, channels);
    for k := 0 to |rooms|
      invariant |pieces| == |counts| == k && reader.file == old(reader.file) && InData(reader, data, trailing)
      invariant forall j :: 0 <= j < k ==> fresh(pieces[j])
      invariant Total(counts) == reader.samplePos == SamplesBefore(rooms, k, numSamples)
      invariant forall j :: 0 <= j < k ==> counts[j] == Least(rooms[j], numSamples - SamplesBefore(rooms, j, numSamples))
      invariant forall j :: 0 <= j < k ==> HoldsSamples(pieces[j], counts[j], data, SamplesBefore(rooms, j, numSamples), channels)
    {
      var piece, count := ReadPiece(reader, rooms[k], data, trailing);
      MoreRead(rooms, k, counts, count);
      pieces, counts := pieces + [piece], counts + [count];
    }
    assert rooms[..|rooms|] == rooms;
  }

  lemma NothingRead(rooms: seq<nat>, data: seq<Word>, trailing: seq<Byte>, channels: nat)
    ensures Total([]) == 0 && Total(rooms[..0]) == 0
    ensures LeftBehind(Bytes(data) + trailing, data, 0, channels, trailing)
  {
    hide Bytes;
    assert data[0 * channels..] == data;
  }

  lemma MoreRead(rooms: seq<nat>, k: nat, counts: seq<nat>, count: nat)
    requires k < |rooms|
    ensures Total(rooms[..k + 1]) == Total(rooms[..k]) + rooms[k]
    ensures Total(counts + [count]) == Total(counts) + count
  {
    assert rooms[..k + 1][..k] == rooms[..k];
    assert (counts + [count])[..|counts|] == counts;
  }
}
