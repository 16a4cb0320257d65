/** A file in chunks, and bytes written into it at an offset. */
module Chunks {
  import opened Base

  type Byte = bv8

  /** 5 MiB. */
  const CHUNK_SIZE: nat := 5 * 1024 * 1024

  function TotalChunks(size: nat): nat {
    (size + CHUNK_SIZE - 1) / CHUNK_SIZE
  }

  function ChunkIndex(offset: nat): nat {
    offset / CHUNK_SIZE
  }

  function ChunkStart(index: nat): nat {
    index * CHUNK_SIZE
  }

  /** Where the chunk ends in a file of this size. */
  function ChunkEnd(index: nat, size: nat): nat {
    Min(ChunkStart(index) + CHUNK_SIZE, size)
  }

  /** Bytes written at an offset; a gap past the end is filled with zeros. */
  function WriteAt(file: seq<Byte>, start: nat, body: seq<Byte>): (r: seq<Byte>)
    ensures body == [] ==> r == file
    ensures body != [] ==> |r| == Max(|file|, start + |body|)
    ensures forall p | 0 <= p < |file| && !(start <= p < start + |body|) :: r[p] == file[p]
    ensures forall p | start <= p < start + |body| :: r[p] == body[p - start]
  {
    if body == [] then file
    else
      var grown := if |file| < start then file + seq(start - |file|, _ => 0) else file;
      grown[..start] + body + (if start + |body| <= |grown| then grown[start + |body|..] else [])
  }

  lemma GapIsZero(file: seq<Byte>, start: nat, body: seq<Byte>, p: nat)
    requires body != [] && |file| <= p < start
    ensures WriteAt(file, start, body)[p] == 0
  {
  }

  // ---- Right chunks ----

  /** The chunk's bytes in the file are the source's. */
  ghost predicate ChunkRight(file: seq<Byte>, source: seq<Byte>, index: nat) {
    forall p | ChunkStart(index) <= p < ChunkEnd(index, |source|) :: p < |file| && file[p] == source[p]
  }

  /** A chunk of the source, at its own offset. */
  ghost predicate IsChunk(source: seq<Byte>, start: nat, body: seq<Byte>) {
    && start % CHUNK_SIZE == 0 && start < |source|
    && body == source[start..ChunkEnd(ChunkIndex(start), |source|)]
  }

  lemma ChunkBounds(source: seq<Byte>, start: nat)
    requires start % CHUNK_SIZE == 0 && start < |source|
    ensures ChunkStart(ChunkIndex(start)) == start
    ensures ChunkIndex(start) < TotalChunks(|source|)
    ensures start < ChunkEnd(ChunkIndex(start), |source|) <= |source|
  {
  }

  lemma ChunkPart(source: seq<Byte>, start: nat, body: seq<Byte>, length: nat)
    requires IsChunk(source, start, body) && length <= |body|
    ensures start + length <= |source| && body[..length] == source[start..start + length]
  {
    ChunkBounds(source, start);
    forall i | 0 <= i < length ensures body[i] == source[start..start + length][i] {
    }
  }

  /** Writing bytes of the source where they belong makes no byte wrong. */
  lemma WriteKeepsRight(file: seq<Byte>, source: seq<Byte>, start: nat, body: seq<Byte>, index: nat)
    requires |file| == |source| && start + |body| <= |source| && body == source[start..start + |body|]
    ensures |WriteAt(file, start, body)| == |source|
    ensures ChunkRight(file, source, index) ==> ChunkRight(WriteAt(file, start, body), source, index)
    ensures start <= ChunkStart(index) && ChunkEnd(index, |source|) <= start + |body| ==>
              ChunkRight(WriteAt(file, start, body), source, index)
  {
    var after := WriteAt(file, start, body);
    forall p | start <= p < start + |body| ensures after[p] == source[p] {
      assert after[p] == body[p - start];
    }
  }

  lemma StartsItsChunk(index: nat)
    ensures ChunkIndex(ChunkStart(index)) == index
  {
  }

  /** An offset below the size is in one of the chunks. */
  lemma BelowSizeInside(size: nat, start: nat)
    requires start < size
    ensures ChunkIndex(start) < TotalChunks(size)
  {
  }

  /** A full chunk of zeros. */
  function ChunkOfZeros(size: nat, index: nat): (body: seq<Byte>)
    ensures |body| <= CHUNK_SIZE
  {
    var length := ChunkEnd(index, size) - ChunkStart(index);
    seq(if length > 0 then length else 0, _ => 0)
  }

  // ---- Chunks that are not aligned ----

  /** The bytes sent cover the whole chunk that gets marked. */
  predicate CoversChunk(start: nat, length: nat, size: nat) {
    start == ChunkStart(ChunkIndex(start)) && ChunkEnd(ChunkIndex(start), size) <= start + length
  }

  /** A byte of the marked chunk that is not written. */
  lemma MissedByte(start: nat, length: nat, size: nat) returns (p: nat)
    requires start < size && !CoversChunk(start, length, size)
    ensures ChunkStart(ChunkIndex(start)) <= p < ChunkEnd(ChunkIndex(start), size)
    ensures p < start || start + length <= p
  {
    p := if start == ChunkStart(ChunkIndex(start)) then start + length else ChunkStart(ChunkIndex(start));
  }

  /** Another file of the same size, wrong at every byte. */
  function Wrong(source: seq<Byte>): (file: seq<Byte>)
    ensures |file| == |source| && forall p | 0 <= p < |source| :: file[p] != source[p]
  {
    seq(|source|, p requires 0 <= p < |source| => if source[p] == 0 then 1 else 0)
  }

  /** The server marks the chunk a write starts in, whatever it covers. Bytes of the source, sent from any
      offset in it, make that chunk right whatever the file held, exactly when they cover it all. */
  lemma MarksRightChunks(source: seq<Byte>, start: nat, length: nat)
    requires start < |source| && start + length <= |source|
    ensures CoversChunk(start, length, |source|)
       <==> forall file: seq<Byte> | |file| == |source| ::
              ChunkRight(WriteAt(file, start, source[start..start + length]), source, ChunkIndex(start))
  {
    var body, index := source[start..start + length], ChunkIndex(start);
    if CoversChunk(start, length, |source|) {
      forall file: seq<Byte> | |file| == |source| ensures ChunkRight(WriteAt(file, start, body), source, index) {
        WriteKeepsRight(file, source, start, body, index);
      }
    } else {
      var p := MissedByte(start, length, |source|);
      var written := WriteAt(Wrong(source), start, body);
      assert p < |source| && written[p] == Wrong(source)[p] != source[p];
      assert !ChunkRight(written, source, index);
    }
  }
}
