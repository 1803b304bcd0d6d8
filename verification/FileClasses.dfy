/** The aggregator's copy loops over the chunks, and the FUSE operations on top of them. */
module FileClasses {
  import opened Arithmetic
  import opened CopyLoop
  import opened ChunkedFile
  import opened FileSystem

  lemma PieceFields(form: Form, C: Positive, size: nat, count: nat, bufferStart: int, offset: nat)
    ensures var p := PieceAt(form, C, size, count, bufferStart, offset); p.index == count && p.bufferStart == bufferStart
  {
  }

  class DataSink {
    const chunkSize: Positive
    const form: Form
    var chunks: Chunks

    constructor (form: Form, chunkSize: Positive)
      ensures chunks == map[] && this.form == form && this.chunkSize == chunkSize
    {
      this.form, this.chunkSize := form, chunkSize;
      chunks := map[];
    }

    /** The copy loop with create_if_missing and write_to_chunk. */
    method Write(uid: string, data: Bytes, offset: nat) returns (o: Outcome<()>)
      modifies this
      ensures var r := WritePieces(old(chunks), uid, data, Split(form, chunkSize, |data|, offset));
        o == Why(r) && (r.Fine? ==> chunks == r.value)
    {
      hide WritePieces, Pieces, PieceAt, WriteToChunk;
      var bufferStart, position := 0, offset;
      var last := (|data| + offset) / chunkSize;
      var count := offset / chunkSize;
      while count <= last
        invariant WritePieces(old(chunks), uid, data, Split(form, chunkSize, |data|, offset)) ==
                  WritePieces(chunks, uid, data, Pieces(form, chunkSize, |data|, count, last, bufferStart, position))
        decreases last + 1 - count
      {
        WriteRound(form, chunkSize, chunks, uid, data, count, last, bufferStart, position);
        var p := PieceAt(form, chunkSize, |data|, count, bufferStart, position);
        PieceFields(form, chunkSize, |data|, count, bufferStart, position);
        if p.delta < 0 || bufferStart < 0 || bufferStart + p.delta > |data| {
          return OutOfBounds;
        }
        var key := Key(uid, count);
        chunks := chunks[key := WriteToChunk(Get(chunks, key), p.chunkStart, data[bufferStart..bufferStart + p.delta])];
        bufferStart, position, count := bufferStart + p.delta, 0, count + 1;
      }
      RoundsAreOver(form, chunkSize, chunks, uid, data, |data|, count, last, bufferStart, position);
      o := Fine(());
    }

    /** The copy loop with raise_if_missing and read_from_chunk, into the first bytes of `buffer`. */
    method Read(uid: string, buffer: array<Byte>, size: nat, offset: nat) returns (o: Outcome<()>)
      requires size <= buffer.Length
      modifies buffer
      ensures var r := ReadPieces(chunks, uid, size, Split(form, chunkSize, size, offset));
        o == Why(r) && (r.Fine? ==> |r.value| <= size && buffer[..|r.value|] == r.value)
    {
      hide ReadPieces, Pieces, PieceAt;
      ghost var wanted := ReadPieces(chunks, uid, size, Split(form, chunkSize, size, offset));
      var bufferStart: nat, position := 0, offset;
      var last := (size + offset) / chunkSize;
      var count := offset / chunkSize;
      PrefixedTwice([], [], wanted);
      assert buffer[..0] == [];
      while count <= last
        invariant 0 <= bufferStart <= size
        invariant wanted == Prefixed(buffer[..bufferStart],
                    ReadPieces(chunks, uid, size, Pieces(form, chunkSize, size, count, last, bufferStart, position)))
        decreases last + 1 - count
      {
        ReadRound(form, chunkSize, chunks, uid, size, count, last, bufferStart, position);
        var p := PieceAt(form, chunkSize, size, count, bufferStart, position);
        PieceFields(form, chunkSize, size, count, bufferStart, position);
        var key := Key(uid, count);
        if key !in chunks {
          return KeyMissing;
        } else if p.delta < 0 {
          return OutOfBounds;
        } else if |chunks[key]| < p.delta {
          return AssertionFailed;
        } else if |chunks[key]| < p.chunkStart + p.delta || bufferStart + p.delta > size {
          return OutOfBounds;
        }
        var slice := chunks[key][p.chunkStart..p.chunkStart + p.delta];
        ghost var done := buffer[..bufferStart];
        forall j | 0 <= j < p.delta {
          buffer[bufferStart + j] := slice[j];
        }
        assert buffer[..bufferStart + p.delta] == done + slice;
        PrefixedTwice(done, slice,
          ReadPieces(chunks, uid, size, Pieces(form, chunkSize, size, count + 1, last, bufferStart + p.delta, 0)));
        bufferStart, position, count := bufferStart + p.delta, 0, count + 1;
      }
      RoundsAreOver(form, chunkSize, chunks, uid, [], size, count, last, bufferStart, position);
      o := Fine(());
    }

    method Truncate(uid: string, newSize: nat) returns (o: Outcome<()>)
      modifies this
      ensures var key := Key(uid, newSize / chunkSize);
        if key in old(chunks)
        then o == Fine(()) && chunks == old(chunks)[key := Resized(old(chunks)[key], newSize % chunkSize)]
        else o == KeyMissing && chunks == old(chunks)
    {
      var key := Key(uid, newSize / chunkSize);
      if key !in chunks {
        return KeyMissing;
      }
      chunks := chunks[key := Resized(chunks[key], newSize % chunkSize)];
      o := Fine(());
    }
  }

  /** The operations answer as `Exec` does; after a failed copy nothing is claimed about the chunks. */
  class ColonyFs {
    const sink: DataSink
    var sizes: map<string, nat>

    ghost function State(): Store
      reads this, sink
    {
      Store(sizes, sink.chunks)
    }

    constructor (form: Form, chunkSize: Positive)
      ensures fresh(sink) && sink.form == form && sink.chunkSize == chunkSize
      ensures Refines(chunkSize, State(), map[])
    {
      sink := new DataSink(form, chunkSize);
      sizes := map[];
    }

    method CreateFile(path: string) returns (reply: Reply)
      modifies this, sink
      ensures reply == Exec(sink.form, sink.chunkSize, old(State()), Create(path)).1
      ensures !reply.Failed? ==> State() == Exec(sink.form, sink.chunkSize, old(State()), Create(path)).0
    {
      sizes := sizes[path := if path in sizes then sizes[path] else 0];
      var o := sink.Write(path, [], 0);
      reply := if o.Fine? then Done else Failed(o);
    }

    method WriteFile(path: string, data: Bytes, offset: nat) returns (reply: Reply)
      modifies this, sink
      ensures reply == Exec(sink.form, sink.chunkSize, old(State()), Write(path, data, offset)).1
      ensures !reply.Failed? ==> State() == Exec(sink.form, sink.chunkSize, old(State()), Write(path, data, offset)).0
    {
      hide WritePieces, Split;
      var o := sink.Write(path, data, offset);
      if !o.Fine? {
        return Failed(o);
      }
      var size := if path in sizes then sizes[path] else 0;
      var endPointer := ToInt32(offset + |data|);
      sizes := sizes[path := if size < endPointer then endPointer else size];
      reply := Count(|data|);
    }

    method ReadFile(path: string, buffer: array<Byte>, size: nat, offset: nat) returns (reply: Reply)
      requires size <= buffer.Length
      modifies buffer
      ensures reply == Exec(sink.form, sink.chunkSize, State(), Read(path, offset, size)).1
      ensures reply.Data? ==>
        |reply.bytes| <= size && buffer[..|reply.bytes|] == reply.bytes
        && path in sizes && |reply.bytes| == if offset > sizes[path] then 0 else Min(size, sizes[path] - offset)
    {
      if path !in sizes {
        return NotFound;
      }
      var length := sizes[path];
      if offset > length {
        return Data([]);
      }
      var n := if offset + size > length then length - offset else size;
      var o := sink.Read(path, buffer, n, offset);
      ReadFillsBuffer(sink.form, sink.chunkSize, sink.chunks, path, n, offset);
      reply := if o.Fine? then Data(buffer[..n]) else Failed(o);
    }

    method TruncateFile(path: string, length: int) returns (reply: Reply)
      modifies this, sink
      ensures reply == Exec(sink.form, sink.chunkSize, old(State()), Truncate(path, length)).1
      ensures State() == Exec(sink.form, sink.chunkSize, old(State()), Truncate(path, length)).0
    {
      if length < 0 {
        return Invalid;
      }
      sizes := sizes[path := if path in sizes then sizes[path] else 0];
      var o := sink.Truncate(path, length);
      if !o.Fine? {
        return Failed(o);
      }
      sizes := sizes[path := length];
      reply := Done;
    }
  }

  /** A read that succeeds fills exactly the bytes it was asked for. */
  lemma ReadFillsBuffer(form: Form, C: Positive, chunks: Chunks, uid: string, size: nat, offset: nat)
    ensures var r := ReadPieces(chunks, uid, size, Split(form, C, size, offset)); r.Fine? ==> |r.value| == size
  {
    SplitIndices(form, C, size, offset);
    DivMod(C, offset);
    PiecesAddUp(form, C, size, offset, offset / C, 0, offset, chunks, uid);
  }

  lemma {:induction false} PiecesAddUp(form: Form, C: Positive, size: nat, base: nat, count: nat, bufferStart: nat, offset: nat, chunks: Chunks, uid: string)
    requires count <= (size + base) / C && bufferStart <= size
    requires (form.AsWritten? && size <= C) || count * C + offset % C == base + bufferStart
    ensures var r := ReadPieces(chunks, uid, size, Pieces(form, C, size, count, (size + base) / C, bufferStart, offset));
      r.Fine? ==> |r.value| == size - bufferStart
    decreases (size + base) / C - count
  {
    var last := (size + base) / C;
    var p := PieceAt(form, C, size, count, bufferStart, offset);
    var rest := Pieces(form, C, size, count + 1, last, bufferStart + p.delta, 0);
    assert Pieces(form, C, size, count, last, bufferStart, offset)[1..] == rest;
    DivMod(C, offset);
    LastRound(C, size + base, count);
    if ReadPiece(chunks, uid, size, p).Fine? {
      if count < last {
        PiecesAddUp(form, C, size, base, count + 1, bufferStart + p.delta, 0, chunks, uid);
      } else {
        assert rest == [];
      }
    }
  }
}
