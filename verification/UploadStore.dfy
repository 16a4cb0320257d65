/** An upload transaction as the storage service keeps it: its keys in Redis and its temporary file. */
module UploadStore {
  import opened Base
  import opened Bitmap
  import opened Chunks
  import opened Upload

  datatype Error = InvalidChunkSize | TooManyConcurrentUploads | UploadIncomplete | FileHashMismatch

  datatype Answer = Ok | Refused(error: Error)

  class Transaction {
    const size: nat
    const totalChunks: nat
    var file: seq<Byte>
    var chunks: Option<Bits>
    var active: int
    /** The transaction and its file are still there. */
    var alive: bool

    constructor (size: nat)
      ensures this.size == size && totalChunks == TotalChunks(size)
      ensures file == Started(size).file && chunks == None && active == 0 && alive
    {
      this.size := size;
      totalChunks := TotalChunks(size);
      file, chunks, active, alive := seq(size, _ => 0), None, 0, true;
    }

    /** `false` when three requests are writing. */
    method TryAcquireUploadSlot() returns (acquired: bool)
      modifies `active
      ensures acquired <==> old(active) < 3
      ensures active == if acquired then old(active) + 1 else old(active)
    {
      active := active + 1;
      if active > MAX_CONCURRENT {
        active := active - 1;
        return false;
      }
      return true;
    }

    method ReleaseUploadSlot()
      modifies `active
      ensures active == Max(old(active) - 1, 0)
    {
      active := active - 1;
      if active < 0 {
        active := 0;
      }
    }

    method SetChunkUploaded(index: nat)
      modifies `chunks
      ensures chunks == Some(SetBit(old(chunks).GetOr([]), index))
      ensures Marked(chunks.value) == Marked(old(chunks).GetOr([])) + {index}
    {
      SetBitMarks(chunks.GetOr([]), index);
      chunks := Some(SetBit(chunks.GetOr([]), index));
    }

    /** The number of set bits, byte by byte. */
    method GetUploadedChunksCount() returns (count: nat)
      ensures count == |Marked(chunks.GetOr([]))|
    {
      var bits := chunks.GetOr([]);
      count := 0;
      for i := 0 to |bits|
        invariant count == BitCount(bits[..i])
      {
        assert bits[..i + 1][..i] == bits[..i];
        count := count + CountTrue(Flags(bits[i]));
      }
      assert bits[..|bits|] == bits;
      BitCountIsMarked(bits);
    }

    method IsUploadComplete() returns (complete: bool)
      ensures complete <==> |Marked(chunks.GetOr([]))| >= totalChunks
    {
      var uploaded := GetUploadedChunksCount();
      complete := uploaded >= totalChunks;
    }

    method GetAllMissingChunks() returns (missing: seq<nat>)
      ensures forall i, j | 0 <= i < j < |missing| :: missing[i] < missing[j]
      ensures forall i :: i in missing <==> i in MissingBelow(chunks.GetOr([]), totalChunks)
    {
      missing := GetAllMissing(chunks, totalChunks);
    }

    /** Writes the bytes at their offset and marks the chunk they start in. */
    method UploadChunkInner(start: nat, body: seq<Byte>)
      modifies `file, `chunks
      ensures file == WriteAt(old(file), start, body)
      ensures chunks == Some(SetBit(old(chunks).GetOr([]), ChunkIndex(start)))
    {
      file := WriteAt(file, start, body);
      SetChunkUploaded(ChunkIndex(start));
    }

    /** One request for a chunk, alone: refused, it changes nothing; otherwise it leaves the slot it took. */
    method UploadChunk(start: nat, end: nat, body: seq<Byte>) returns (answer: Answer)
      requires start <= end && active >= 0
      modifies this
      ensures alive == old(alive) && active == old(active)
      ensures answer == if end - start > CHUNK_SIZE || |body| != end - start then Refused(InvalidChunkSize)
                        else if old(active) >= MAX_CONCURRENT then Refused(TooManyConcurrentUploads)
                        else Ok
      ensures answer.Refused? ==> file == old(file) && chunks == old(chunks)
      ensures answer.Ok? ==> file == WriteAt(old(file), start, body)
      ensures answer.Ok? ==> chunks == Some(SetBit(old(chunks).GetOr([]), ChunkIndex(start)))
    {
      var length := end - start;
      if length > CHUNK_SIZE || |body| != length {
        return Refused(InvalidChunkSize);
      }
      var acquired := TryAcquireUploadSlot();
      if !acquired {
        return Refused(TooManyConcurrentUploads);
      }
      UploadChunkInner(start, body);
      ReleaseUploadSlot();
      answer := Ok;
    }

    /** Refused while too few bits are set; a file with another hash is dropped. */
    method UploadComplete(hash: seq<Byte> -> nat, expected: nat) returns (answer: Answer)
      modifies `alive
      ensures answer == if |Marked(chunks.GetOr([]))| < totalChunks then Refused(UploadIncomplete)
                        else if hash(file) != expected then Refused(FileHashMismatch)
                        else Ok
      ensures alive == (old(alive) && answer == Refused(UploadIncomplete))
    {
      var complete := IsUploadComplete();
      if !complete {
        return Refused(UploadIncomplete);
      }
      alive := false;
      answer := if hash(file) != expected then Refused(FileHashMismatch) else Ok;
    }
  }

  /** A transaction whose chunks all came from its source is complete exactly when nothing is missing, and
      completing it then succeeds: the bits in the transaction are those of a run of honest requests. */
  lemma HonestUploadCompletes(source: seq<Byte>, steps: seq<Step>, hash: seq<Byte> -> nat)
    requires forall step | step in steps :: Honest(source, step)
    ensures var u := Run(Started(|source|), steps);
            var complete := |Marked(u.bits)| >= TotalChunks(|source|);
            && (complete <==> MissingBelow(u.bits, TotalChunks(|source|)) == {})
            && (complete ==> hash(u.file) == hash(source))
  {
    UploadReassembles(source, steps);
    BitCountIsMarked(Run(Started(|source|), steps).bits);
  }
}
