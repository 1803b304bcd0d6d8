/**
 The chunked file: what the copy loop does to the chunks, and the proof that a
 set of chunks kept this way is a flat string of bytes.
 */
module ChunkedFile {
  import opened Arithmetic
  import opened CopyLoop

  type Byte = x: int | 0 <= x < 256
  type Bytes = seq<Byte>

  /** A chunk is named by its file and its index in it. */
  datatype Key = Key(uid: string, cuid: nat)
  type Chunks = map<Key, Bytes>

  datatype Outcome<+T> =
    | Fine(value: T)
    | KeyMissing         // the chunk is neither cached nor stored
    | AssertionFailed    // BOOST_ASSERT on the chunk's size
    | OutOfBounds        // memcpy past a buffer: nothing is known afterwards

  /** `vector::resize`. */
  function Resized(chunk: Bytes, size: nat): (r: Bytes)
    ensures |r| == size
  {
    if |chunk| >= size then chunk[..size] else chunk + seq(size - |chunk|, _ => 0 as Byte)
  }

  function Put(chunk: Bytes, start: nat, data: Bytes): (r: Bytes)
    requires start + |data| <= |chunk|
    ensures |r| == |chunk|
  {
    chunk[..start] + data + chunk[start + |data|..]
  }

  /** `write_to_chunk`. */
  function WriteToChunk(chunk: Bytes, start: nat, data: Bytes): (r: Bytes)
    ensures |r| == if |chunk| < start + |data| then start + |data| else |chunk|
    ensures forall i :: 0 <= i < |data| ==> r[start + i] == data[i]
    ensures forall i :: 0 <= i < |chunk| && !(start <= i < start + |data|) ==> r[i] == chunk[i]
  {
    Put(if |chunk| < start + |data| then Resized(chunk, start + |data|) else chunk, start, data)
  }

  /** What `operator[]` finds: a blank chunk when there is none. */
  function Get(chunks: Chunks, key: Key): Bytes {
    if key in chunks then chunks[key] else []
  }

  function WritePiece(chunks: Chunks, uid: string, data: Bytes, p: Piece): Outcome<Chunks> {
    var key := Key(uid, p.index);
    if p.delta < 0 || p.bufferStart < 0 || p.bufferStart + p.delta > |data| then OutOfBounds
    else Fine(chunks[key := WriteToChunk(Get(chunks, key), p.chunkStart, data[p.bufferStart..p.bufferStart + p.delta])])
  }

  function WritePieces(chunks: Chunks, uid: string, data: Bytes, ps: seq<Piece>): Outcome<Chunks>
    decreases |ps|
  {
    if ps == [] then Fine(chunks)
    else
      match WritePiece(chunks, uid, data, ps[0])
      case Fine(next) => WritePieces(next, uid, data, ps[1..])
      case bad => bad
  }

  /** `read_from_chunk` into a buffer of `size` bytes. */
  function ReadPiece(chunks: Chunks, uid: string, size: nat, p: Piece): Outcome<Bytes> {
    var key := Key(uid, p.index);
    if key !in chunks then KeyMissing
    else if p.delta < 0 then OutOfBounds
    else if |chunks[key]| < p.delta then AssertionFailed
    else if |chunks[key]| < p.chunkStart + p.delta || p.bufferStart + p.delta > size then OutOfBounds
    else Fine(chunks[key][p.chunkStart..p.chunkStart + p.delta])
  }

  /** The bytes the pieces put into the buffer one behind the other. */
  function ReadPieces(chunks: Chunks, uid: string, size: nat, ps: seq<Piece>): Outcome<Bytes>
    decreases |ps|
  {
    if ps == [] then Fine([])
    else
      match ReadPiece(chunks, uid, size, ps[0])
      case Fine(head) => Prefixed(head, ReadPieces(chunks, uid, size, ps[1..]))
      case bad => bad
  }

  function Prefixed(head: Bytes, o: Outcome<Bytes>): Outcome<Bytes> {
    match o
    case Fine(tail) => Fine(head + tail)
    case bad => bad
  }

  lemma PrefixedTwice(a: Bytes, b: Bytes, o: Outcome<Bytes>)
    ensures Prefixed([], o) == o
    ensures Prefixed(a, Prefixed(b, o)) == Prefixed(a + b, o)
  {
    if o.Fine? {
      assert [] + o.value == o.value;
      assert a + (b + o.value) == a + b + o.value;
    }
  }

  /** One round of the loop peels one piece off. */
  lemma WriteRound(form: Form, C: Positive, chunks: Chunks, uid: string, data: Bytes, count: nat, last: nat, bufferStart: int, offset: nat)
    requires count <= last
    ensures var p := PieceAt(form, C, |data|, count, bufferStart, offset);
      var first := WritePiece(chunks, uid, data, p);
      WritePieces(chunks, uid, data, Pieces(form, C, |data|, count, last, bufferStart, offset)) ==
      if first.Fine? then
        WritePieces(first.value, uid, data, Pieces(form, C, |data|, count + 1, last, bufferStart + p.delta, 0))
      else first
  {
    var p := PieceAt(form, C, |data|, count, bufferStart, offset);
    var ps := Pieces(form, C, |data|, count, last, bufferStart, offset);
    assert ps[0] == p && ps[1..] == Pieces(form, C, |data|, count + 1, last, bufferStart + p.delta, 0);
  }

  lemma ReadRound(form: Form, C: Positive, chunks: Chunks, uid: string, size: nat, count: nat, last: nat, bufferStart: int, offset: nat)
    requires count <= last
    ensures var p := PieceAt(form, C, size, count, bufferStart, offset);
      var first := ReadPiece(chunks, uid, size, p);
      var rest := ReadPieces(chunks, uid, size, Pieces(form, C, size, count + 1, last, bufferStart + p.delta, 0));
      ReadPieces(chunks, uid, size, Pieces(form, C, size, count, last, bufferStart, offset)) ==
      if first.Fine? then Prefixed(first.value, rest) else first
  {
    var p := PieceAt(form, C, size, count, bufferStart, offset);
    var ps := Pieces(form, C, size, count, last, bufferStart, offset);
    assert ps[0] == p && ps[1..] == Pieces(form, C, size, count + 1, last, bufferStart + p.delta, 0);
  }

  lemma RoundsAreOver(form: Form, C: Positive, chunks: Chunks, uid: string, data: Bytes, size: nat, count: nat, last: nat, bufferStart: int, offset: nat)
    requires count > last
    ensures WritePieces(chunks, uid, data, Pieces(form, C, size, count, last, bufferStart, offset)) == Fine(chunks)
    ensures ReadPieces(chunks, uid, size, Pieces(form, C, size, count, last, bufferStart, offset)) == Fine([])
  {
  }

  // ---------- chunks as a flat file ----------

  function Overwrite(flat: Bytes, offset: nat, data: Bytes): (r: Bytes)
    requires offset <= |flat|
    ensures |r| == if |flat| < offset + |data| then offset + |data| else |flat|
    ensures forall i :: 0 <= i < |r| ==> r[i] == if offset <= i < offset + |data| then data[i - offset] else flat[i]
  {
    flat[..offset] + data + if offset + |data| <= |flat| then flat[offset + |data|..] else []
  }

  /** Byte i of the flat file is byte i % C of chunk i / C. */
  ghost predicate Holds(C: Positive, chunks: Chunks, uid: string, flat: Bytes) {
    forall i :: 0 <= i < |flat| ==> HasByte(chunks, Key(uid, ChunkOf(C, i)), PlaceIn(C, i), flat[i])
  }

  predicate HasByte(chunks: Chunks, key: Key, place: nat, b: Byte) {
    key in chunks && place < |chunks[key]| && chunks[key][place] == b
  }

  ghost predicate Bounded(C: Positive, chunks: Chunks) {
    forall key :: key in chunks ==> |chunks[key]| <= C
  }

  /** The chunks hold the file, and the chunk in which it ends exists, though it may be empty. */
  ghost predicate Represents(C: Positive, chunks: Chunks, uid: string, flat: Bytes) {
    && Holds(C, chunks, uid, flat)
    && var end := Key(uid, ChunkOf(C, |flat|)); end in chunks && PlaceIn(C, |flat|) <= |chunks[end]|
  }

  lemma ByteIsHeld(C: Positive, chunks: Chunks, uid: string, flat: Bytes, index: nat, place: nat)
    requires Holds(C, chunks, uid, flat) && place < C && index * C + place < |flat|
    ensures index * C + place >= 0 && HasByte(chunks, Key(uid, index), place, flat[index * C + place])
  {
    Locate(C, index, place);
    assert HasByte(chunks, Key(uid, ChunkOf(C, index * C + place)), PlaceIn(C, index * C + place), flat[index * C + place]);
  }

  /** Every chunk up to the end exists, all but the last are full, and the last is long enough. */
  lemma ChunksArePresent(C: Positive, chunks: Chunks, uid: string, flat: Bytes, k: nat)
    requires Represents(C, chunks, uid, flat) && Bounded(C, chunks) && k <= |flat| / C
    ensures Key(uid, k) in chunks
    ensures k < |flat| / C ==> |chunks[Key(uid, k)]| == C
    ensures k == |flat| / C ==> |flat| % C <= |chunks[Key(uid, k)]| <= C
  {
    DivMod(C, |flat|);
    if k < |flat| / C {
      MulMono(C, k + 1, |flat| / C);
      ByteIsHeld(C, chunks, uid, flat, k, C - 1);
    }
  }

  /** A position up to the end of the file is in an existing chunk, at or before its end. */
  lemma PositionIsPresent(C: Positive, chunks: Chunks, uid: string, flat: Bytes, index: nat, place: nat)
    requires Represents(C, chunks, uid, flat) && place < C && index * C + place <= |flat|
    ensures Key(uid, index) in chunks && place <= |chunks[Key(uid, index)]|
  {
    if index * C + place < |flat| {
      ByteIsHeld(C, chunks, uid, flat, index, place);
    } else {
      Locate(C, index, place);
    }
  }

  /** The bytes of the file that belong into chunk `index`. */
  function FileSlice(C: Positive, flat: Bytes, index: nat): Bytes {
    var low := index * C;
    if 0 <= low <= |flat| then flat[low..Min(|flat|, low + C)] else []
  }

  lemma SliceLength(C: Positive, flat: Bytes, index: nat)
    ensures index < |flat| / C ==> |FileSlice(C, flat, index)| == C
    ensures index == |flat| / C ==> |FileSlice(C, flat, index)| == |flat| % C
    ensures index > |flat| / C ==> FileSlice(C, flat, index) == []
    ensures index <= |flat| / C <==> index * C <= |flat|
  {
    DivMod(C, |flat|);
    MulMono(C, 0, index);
    if index < |flat| / C {
      MulMono(C, index + 1, |flat| / C);
    } else if index > |flat| / C {
      MulMono(C, |flat| / C + 1, index);
    }
  }

  /** Chunk by chunk: a chunk serves the file if the file's slice is a prefix of it. */
  ghost predicate ChunkServes(C: Positive, chunks: Chunks, uid: string, flat: Bytes, index: nat) {
    Key(uid, index) in chunks && FileSlice(C, flat, index) <= chunks[Key(uid, index)]
  }

  lemma ServesIfRepresents(C: Positive, chunks: Chunks, uid: string, flat: Bytes, index: nat)
    requires Represents(C, chunks, uid, flat) && index <= |flat| / C
    ensures ChunkServes(C, chunks, uid, flat, index)
  {
    SliceLength(C, flat, index);
    var slice := FileSlice(C, flat, index);
    PositionIsPresent(C, chunks, uid, flat, index, 0);
    var chunk := chunks[Key(uid, index)];
    if |slice| > 0 {
      ByteIsHeld(C, chunks, uid, flat, index, |slice| - 1);
    }
    forall p | 0 <= p < |slice|
      ensures chunk[p] == slice[p]
    {
      ByteIsHeld(C, chunks, uid, flat, index, p);
    }
  }

  lemma RepresentsIfServes(C: Positive, chunks: Chunks, uid: string, flat: Bytes)
    requires forall index: nat :: index <= |flat| / C ==> ChunkServes(C, chunks, uid, flat, index)
    ensures Represents(C, chunks, uid, flat)
  {
    forall i | 0 <= i < |flat|
      ensures HasByte(chunks, Key(uid, ChunkOf(C, i)), PlaceIn(C, i), flat[i])
    {
      SliceHoldsByte(C, flat, i);
      assert ChunkServes(C, chunks, uid, flat, ChunkOf(C, i));
    }
    SliceLength(C, flat, ChunkOf(C, |flat|));
    assert ChunkServes(C, chunks, uid, flat, ChunkOf(C, |flat|));
  }

  lemma SliceHoldsByte(C: Positive, flat: Bytes, i: nat)
    requires i < |flat|
    ensures ChunkOf(C, i) <= |flat| / C
    ensures var slice := FileSlice(C, flat, ChunkOf(C, i)); PlaceIn(C, i) < |slice| && slice[PlaceIn(C, i)] == flat[i]
  {
    Located(C, i);
    DivMono(C, i, |flat|);
    SliceLength(C, flat, ChunkOf(C, i));
  }

  /** The slices of a shorter file are prefixes of those of the longer one. */
  lemma SlicesShrink(C: Positive, flat: Bytes, length: nat, index: nat)
    requires length <= |flat|
    ensures FileSlice(C, flat[..length], index) <= FileSlice(C, flat, index)
  {
    MulMono(C, 0, index);
  }

  lemma ByteAfterPiece(C: Positive, chunks: Chunks, uid: string, flat: Bytes, index: nat, start: nat, data: Bytes, i: nat)
    requires Holds(C, chunks, uid, flat)
    requires start + |data| <= C && 0 <= index * C + start <= |flat|
    requires i < |Overwrite(flat, index * C + start, data)|
    ensures var key := Key(uid, index);
      var after := chunks[key := WriteToChunk(Get(chunks, key), start, data)];
      HasByte(after, Key(uid, ChunkOf(C, i)), PlaceIn(C, i), Overwrite(flat, index * C + start, data)[i])
  {
    hide ChunkOf, PlaceIn, WriteToChunk, Overwrite;
    Located(C, i);
    var place := PlaceIn(C, i);
    var key := Key(uid, index);
    var chunk := WriteToChunk(Get(chunks, key), start, data);
    if ChunkOf(C, i) == index {
      if start <= place < start + |data| {
        assert chunk[start + (place - start)] == data[place - start];
      } else {
        assert HasByte(chunks, key, place, flat[i]);
      }
    } else {
      NotInPiece(C, index, start, |data|, ChunkOf(C, i), place);
      assert HasByte(chunks, Key(uid, ChunkOf(C, i)), place, flat[i]);
    }
  }

  /** Places of different chunks are different positions. */
  lemma NotInPiece(C: Positive, index: nat, start: nat, length: nat, other: nat, place: nat)
    requires start + length <= C && place < C && other != index
    ensures !(index * C + start <= other * C + place < index * C + start + length)
  {
    if other < index {
      MulMono(C, other + 1, index);
    } else {
      MulMono(C, index + 1, other);
    }
  }

  lemma PieceKeepsHolds(C: Positive, chunks: Chunks, uid: string, flat: Bytes, index: nat, start: nat, data: Bytes)
    requires Holds(C, chunks, uid, flat) && Bounded(C, chunks)
    requires start + |data| <= C && 0 <= index * C + start <= |flat|
    ensures var key := Key(uid, index);
      var after := chunks[key := WriteToChunk(Get(chunks, key), start, data)];
      Holds(C, after, uid, Overwrite(flat, index * C + start, data)) && Bounded(C, after)
  {
    hide ChunkOf, PlaceIn;
    forall i | 0 <= i < |Overwrite(flat, index * C + start, data)| {
      ByteAfterPiece(C, chunks, uid, flat, index, start, data, i);
    }
  }

  ghost predicate OthersUntouched(before: Chunks, after: Chunks, uid: string) {
    && before.Keys <= after.Keys
    && forall key :: key in after && key.uid != uid ==> key in before && after[key] == before[key]
  }

  /** What writing the pieces ps has to achieve. */
  ghost predicate Written(C: Positive, before: Chunks, r: Outcome<Chunks>, uid: string, result: Bytes) {
    r.Fine? && Bounded(C, r.value) && Holds(C, r.value, uid, result) && OthersUntouched(before, r.value, uid)
  }

  lemma OverwriteTwice(flat: Bytes, pos: nat, data: Bytes, cut: nat)
    requires pos <= |flat| && cut <= |data|
    ensures Overwrite(Overwrite(flat, pos, data[..cut]), pos + cut, data[cut..]) == Overwrite(flat, pos, data)
  {
  }

  lemma PieceIsWritten(C: Positive, chunks: Chunks, uid: string, flat: Bytes, data: Bytes, p: Piece, base: nat)
    requires Holds(C, chunks, uid, flat) && Bounded(C, chunks)
    requires 0 <= p.bufferStart && 0 <= p.delta && p.bufferStart + p.delta <= |data|
    requires p.chunkStart + p.delta <= C && p.index * C + p.chunkStart == base + p.bufferStart <= |flat|
    ensures Written(C, chunks, WritePiece(chunks, uid, data, p), uid,
                    Overwrite(flat, base + p.bufferStart, data[p.bufferStart..p.bufferStart + p.delta]))
  {
    hide Holds, Bounded, Overwrite, WriteToChunk;
    PieceKeepsHolds(C, chunks, uid, flat, p.index, p.chunkStart, data[p.bufferStart..p.bufferStart + p.delta]);
  }

  lemma UntouchedTwice(a: Chunks, b: Chunks, c: Chunks, uid: string)
    requires OthersUntouched(a, b, uid) && OthersUntouched(b, c, uid)
    ensures OthersUntouched(a, c, uid)
  {
  }

  /** Writing tiled pieces writes the file. */
  lemma {:induction false} WriteTiles(C: Positive, chunks: Chunks, uid: string, flat: Bytes, data: Bytes, ps: seq<Piece>, base: nat, start: nat)
    requires Tiles(C, ps, base, start, |data|) && start <= |data|
    requires Holds(C, chunks, uid, flat) && Bounded(C, chunks) && base + start <= |flat|
    ensures Written(C, chunks, WritePieces(chunks, uid, data, ps), uid, Overwrite(flat, base + start, data[start..]))
    decreases |ps|
  {
    hide Holds, Bounded, OthersUntouched, WritePiece;
    if ps == [] {
      assert OthersUntouched(chunks, chunks, uid) by { UntouchedByNothing(chunks, uid); }
      assert Overwrite(flat, base + start, data[start..]) == flat;
    } else {
      var p, rest := ps[0], ps[1..];
      var cut := start + p.delta;
      TilesInRange(C, ps, base, start, |data|);
      TilesInRange(C, rest, base, cut, |data|);
      var slice := data[start..cut];
      PieceIsWritten(C, chunks, uid, flat, data, p, base);
      var next := WritePiece(chunks, uid, data, p).value;
      WriteTiles(C, next, uid, Overwrite(flat, base + start, slice), data, rest, base, cut);
      OverwriteTwice(flat, base + start, data[start..], p.delta);
      assert data[start..][..p.delta] == slice && data[start..][p.delta..] == data[cut..];
      UntouchedTwice(chunks, next, WritePieces(next, uid, data, rest).value, uid);
    }
  }

  lemma UntouchedByNothing(chunks: Chunks, uid: string)
    ensures OthersUntouched(chunks, chunks, uid)
  {
  }

  predicate VisitedTo(chunks: Chunks, uid: string, p: Piece) {
    Key(uid, p.index) in chunks && p.chunkStart + p.delta <= |chunks[Key(uid, p.index)]|
  }

  /** Writing visits every piece's chunk, and no chunk ever shrinks. */
  lemma {:induction false} WriteVisits(chunks: Chunks, uid: string, data: Bytes, ps: seq<Piece>)
    requires WritePieces(chunks, uid, data, ps).Fine?
    ensures var after := WritePieces(chunks, uid, data, ps).value;
      && (forall key :: key in chunks ==> key in after && |chunks[key]| <= |after[key]|)
      && (forall i :: 0 <= i < |ps| ==> VisitedTo(after, uid, ps[i]))
    decreases |ps|
  {
    if ps != [] {
      var next := WritePiece(chunks, uid, data, ps[0]).value;
      WriteVisits(next, uid, data, ps[1..]);
      assert VisitedTo(next, uid, ps[0]);
      assert forall i :: 1 <= i < |ps| ==> ps[i] == ps[1..][i - 1];
    }
  }

  lemma PieceReads(C: Positive, chunks: Chunks, uid: string, flat: Bytes, size: nat, p: Piece, base: nat)
    requires Represents(C, chunks, uid, flat)
    requires 0 <= p.bufferStart && 0 <= p.delta && p.chunkStart < C && p.chunkStart + p.delta <= C
    requires p.index * C + p.chunkStart == base + p.bufferStart
    requires p.bufferStart + p.delta <= size && base + p.bufferStart + p.delta <= |flat|
    ensures ReadPiece(chunks, uid, size, p) == Fine(flat[base + p.bufferStart..base + p.bufferStart + p.delta])
  {
    hide ChunkOf, PlaceIn;
    var pos := base + p.bufferStart;
    PositionIsPresent(C, chunks, uid, flat, p.index, p.chunkStart);
    var chunk := chunks[Key(uid, p.index)];
    if p.delta > 0 {
      ByteIsHeld(C, chunks, uid, flat, p.index, p.chunkStart + p.delta - 1);
    }
    var found, wanted := chunk[p.chunkStart..p.chunkStart + p.delta], flat[pos..pos + p.delta];
    forall j | 0 <= j < |found|
      ensures found[j] == wanted[j]
    {
      ByteIsHeld(C, chunks, uid, flat, p.index, p.chunkStart + j);
    }
    assert found == wanted;
  }

  /** Reading tiled pieces reads the file. */
  lemma {:induction false} ReadTiles(C: Positive, chunks: Chunks, uid: string, flat: Bytes, size: nat, ps: seq<Piece>, base: nat, start: nat)
    requires Tiles(C, ps, base, start, size) && start <= size
    requires Represents(C, chunks, uid, flat) && base + size <= |flat|
    ensures ReadPieces(chunks, uid, size, ps) == Fine(flat[base + start..base + size])
    decreases |ps|
  {
    hide Represents;
    if ps != [] {
      var p := ps[0];
      TilesInRange(C, ps, base, start, size);
      TilesInRange(C, ps[1..], base, start + p.delta, size);
      PieceReads(C, chunks, uid, flat, size, p, base);
      ReadTiles(C, chunks, uid, flat, size, ps[1..], base, start + p.delta);
      assert flat[base + start..base + size] ==
        flat[base + start..base + start + p.delta] + flat[base + start + p.delta..base + size];
    }
  }
}
