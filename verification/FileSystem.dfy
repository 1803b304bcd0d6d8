/** create, write, read and truncate over many files: the chunked store against a map of flat files. */
module FileSystem {
  import opened Arithmetic
  import opened CopyLoop
  import opened ChunkedFile

  /** st_size by path, and the chunks behind the cache. */
  datatype Store = Store(sizes: map<string, nat>, chunks: Chunks)

  datatype Op =
    | Create(path: string)
    | Write(path: string, data: Bytes, offset: nat)
    | Read(path: string, offset: nat, size: nat)
    | Truncate(path: string, length: int)
    | Unlink(path: string)

  datatype Reply =
    | Done
    | Count(n: nat)
    | Data(bytes: Bytes)
    | Invalid             // -EINVAL
    | NotFound            // lookup_e
    | Failed(why: Outcome<()>)

  /** The value of a `size_t` sum stored in an `int`. */
  function ToInt32(x: nat): int { (x + 0x8000_0000) % 0x1_0000_0000 - 0x8000_0000 }

  /** `write`'s bookkeeping: the end of the request passes through an `int`. */
  function GrownSize(size: nat, end: nat): nat {
    if size < ToInt32(end) then ToInt32(end) else size
  }

  function SizeOf(sizes: map<string, nat>, path: string): nat {
    if path in sizes then sizes[path] else 0
  }

  function Why<T>(o: Outcome<T>): Outcome<()> {
    match o
    case Fine(_) => Fine(())
    case KeyMissing => KeyMissing
    case AssertionFailed => AssertionFailed
    case OutOfBounds => OutOfBounds
  }

  function CreateFile(form: Form, C: Positive, s: Store, path: string): (Store, Reply) {
    match WritePieces(s.chunks, path, [], Split(form, C, 0, 0))
    case Fine(chunks) => (Store(s.sizes[path := SizeOf(s.sizes, path)], chunks), Done)
    case bad => (s, Failed(Why(bad)))
  }

  function WriteFile(form: Form, C: Positive, s: Store, path: string, data: Bytes, offset: nat): (Store, Reply) {
    match WritePieces(s.chunks, path, data, Split(form, C, |data|, offset))
    case Fine(chunks) =>
      (Store(s.sizes[path := GrownSize(SizeOf(s.sizes, path), offset + |data|)], chunks), Count(|data|))
    case bad => (s, Failed(Why(bad)))
  }

  /** How many bytes `read` asks the chunks for. */
  function Clamped(length: nat, offset: nat, size: nat): nat {
    if offset > length then 0 else Min(size, length - offset)
  }

  function ReadFile(form: Form, C: Positive, s: Store, path: string, offset: nat, size: nat): Reply {
    if path !in s.sizes then NotFound
    else
      var length := s.sizes[path];
      var n := Clamped(length, offset, size);
      if offset > length then Data([])
      else
        match ReadPieces(s.chunks, path, n, Split(form, C, n, offset))
        case Fine(bytes) => Data(bytes)
        case bad => Failed(Why(bad))
  }

  function TruncateFile(C: Positive, s: Store, path: string, length: int): (Store, Reply) {
    if length < 0 then (s, Invalid)
    else
      var key := Key(path, length / C);
      var touched := s.(sizes := s.sizes[path := SizeOf(s.sizes, path)]);
      if key !in s.chunks then (touched, Failed(KeyMissing))
      else (Store(s.sizes[path := length], s.chunks[key := Resized(s.chunks[key], length % C)]), Done)
  }

  function Exec(form: Form, C: Positive, s: Store, op: Op): (Store, Reply) {
    match op
    case Create(path) => CreateFile(form, C, s, path)
    case Write(path, data, offset) => WriteFile(form, C, s, path, data, offset)
    case Read(path, offset, size) => (s, ReadFile(form, C, s, path, offset, size))
    case Truncate(path, length) => TruncateFile(C, s, path, length)
    case Unlink(path) => (s.(sizes := s.sizes - {path}), Done)   // the chunks stay behind
  }

  // ---------- the reference: a map of byte strings ----------

  type Flat = map<string, Bytes>

  function Contents(f: Flat, path: string): Bytes {
    if path in f then f[path] else []
  }

  /** What each operation has to do; `Permitted` says when it is defined. */
  function FlatExec(f: Flat, op: Op): (Flat, Reply)
    requires op.Write? ==> op.offset <= |Contents(f, op.path)|
    requires op.Truncate? && op.length >= 0 ==> op.length <= |Contents(f, op.path)|
  {
    match op
    case Create(path) => (f[path := Contents(f, path)], Done)
    case Write(path, data, offset) => (f[path := Overwrite(Contents(f, path), offset, data)], Count(|data|))
    case Read(path, offset, size) =>
      (f, if path !in f then NotFound
          else if offset > |f[path]| then Data([])
          else Data(f[path][offset..offset + Clamped(|f[path]|, offset, size)]))
    case Truncate(path, length) =>
      if length < 0 then (f, Invalid) else (f[path := Contents(f, path)[..length]], Done)
    case Unlink(path) => (f - {path}, Done)
  }

  predicate FitsChunk(form: Form, C: Positive, offset: nat, size: nat) {
    form.Intended? || offset % C + size <= C
  }

  /** No gaps, no extension by truncate, ends within `int`, and for the loop as written no chunk boundary inside. */
  predicate Permitted(form: Form, C: Positive, f: Flat, op: Op) {
    match op
    case Create(_) | Unlink(_) => true
    case Write(path, data, offset) =>
      var size := |Contents(f, path)|;
      offset <= size && SizeFits(size, offset + |data|) && FitsChunk(form, C, offset, |data|)
    case Read(path, offset, size) =>
      path in f && offset <= |f[path]| ==> FitsChunk(form, C, offset, Clamped(|f[path]|, offset, size))
    case Truncate(path, length) => length >= 0 ==> path in f && length <= |f[path]|
  }

  predicate SizeFits(size: nat, end: nat) { end < 0x8000_0000 || end <= size }

  ghost predicate Refines(C: Positive, s: Store, f: Flat) {
    && s.sizes.Keys == f.Keys
    && Bounded(C, s.chunks)
    && forall path :: path in f ==> RefinesFile(C, s, f, path)
  }

  ghost predicate RefinesFile(C: Positive, s: Store, f: Flat, path: string)
    requires path in s.sizes && path in f
  {
    s.sizes[path] == |f[path]| && Represents(C, s.chunks, path, f[path])
  }

  // ---------- one request ----------

  /** The recorded size is right exactly when the end of the request fits an `int` or lies inside the file. */
  lemma GrownSizeIsExact(size: nat, end: nat)
    ensures GrownSize(size, end) == (if size < end then end else size) <==> SizeFits(size, end)
  {
  }

  /** And what it is otherwise: an end from 2^31 to 2^32 is negative as an int and leaves the size alone, larger ends wrap around. */
  lemma GrownSizeWraps(size: nat, wraps: nat, rest: nat)
    requires rest < 0x1_0000_0000
    ensures GrownSize(size, wraps * 0x1_0000_0000 + rest) == if rest < 0x8000_0000 && size < rest then rest else size
  {
    var x := rest + 0x8000_0000;
    assert (wraps * 0x1_0000_0000 + x) % 0x1_0000_0000 == x % 0x1_0000_0000;
  }

  lemma SplitTiles(form: Form, C: Positive, size: nat, offset: nat)
    requires FitsChunk(form, C, offset, size)
    ensures Partition(C, Split(form, C, size, offset), offset, size)
  {
    IntendedPartitions(C, size, offset);
    if form.AsWritten? {
      AsWrittenPartitions(C, size, offset);
    }
  }

  /** The chunk in which a written request ends exists and reaches at least to that end. */
  lemma EndIsVisited(form: Form, C: Positive, chunks: Chunks, path: string, data: Bytes, offset: nat)
    requires FitsChunk(form, C, offset, |data|)
    requires WritePieces(chunks, path, data, Split(form, C, |data|, offset)).Fine?
    ensures var after := WritePieces(chunks, path, data, Split(form, C, |data|, offset)).value;
      var key := Key(path, ChunkOf(C, offset + |data|));
      key in after && PlaceIn(C, offset + |data|) <= |after[key]|
  {
    hide WritePieces, Split;
    var ps := Split(form, C, |data|, offset);
    SplitTiles(form, C, |data|, offset);
    WriteVisits(chunks, path, data, ps);
    TilesEnd(C, ps, offset, 0, |data|);
    assert VisitedTo(WritePieces(chunks, path, data, ps).value, path, ps[|ps| - 1]);
    hide Tiles;
    DivMod(C, offset + |data|);
  }

  /** A permitted write turns a representation of the file into one of the overwritten file. */
  lemma WriteRepresents(form: Form, C: Positive, chunks: Chunks, path: string, flat: Bytes, data: Bytes, offset: nat)
    requires FitsChunk(form, C, offset, |data|) && offset <= |flat|
    requires Holds(C, chunks, path, flat) && Bounded(C, chunks)
    requires flat != [] ==> Represents(C, chunks, path, flat)
    ensures var r := WritePieces(chunks, path, data, Split(form, C, |data|, offset));
      r.Fine? && Bounded(C, r.value) && OthersUntouched(chunks, r.value, path)
      && Represents(C, r.value, path, Overwrite(flat, offset, data))
  {
    hide Holds, Bounded, OthersUntouched, WritePieces, Split, ChunkOf, PlaceIn, Overwrite, Tiles;
    var ps := Split(form, C, |data|, offset);
    SplitTiles(form, C, |data|, offset);
    WriteTiles(C, chunks, path, flat, data, ps, offset, 0);
    assert data[0..] == data;
    EndIsKept(form, C, chunks, path, flat, data, offset);
  }

  /** The chunk in which the overwritten file ends exists and is long enough. */
  lemma EndIsKept(form: Form, C: Positive, chunks: Chunks, path: string, flat: Bytes, data: Bytes, offset: nat)
    requires FitsChunk(form, C, offset, |data|) && offset <= |flat|
    requires flat != [] ==> Represents(C, chunks, path, flat)
    requires WritePieces(chunks, path, data, Split(form, C, |data|, offset)).Fine?
    ensures var after := WritePieces(chunks, path, data, Split(form, C, |data|, offset)).value;
      var end := |Overwrite(flat, offset, data)|; var key := Key(path, ChunkOf(C, end));
      key in after && PlaceIn(C, end) <= |after[key]|
  {
    hide Holds, WritePieces, Split, ChunkOf, PlaceIn, Overwrite;
    if |flat| <= offset + |data| {
      EndIsVisited(form, C, chunks, path, data, offset);
    } else {
      WriteVisits(chunks, path, data, Split(form, C, |data|, offset));
      assert Key(path, ChunkOf(C, |flat|)) in chunks;
    }
  }

  lemma ReadRepresents(form: Form, C: Positive, chunks: Chunks, path: string, flat: Bytes, offset: nat, n: nat)
    requires FitsChunk(form, C, offset, n) && offset + n <= |flat|
    requires Represents(C, chunks, path, flat)
    ensures ReadPieces(chunks, path, n, Split(form, C, n, offset)) == Fine(flat[offset..offset + n])
  {
    SplitTiles(form, C, n, offset);
    ReadTiles(C, chunks, path, flat, n, Split(form, C, n, offset), offset, 0);
  }

  lemma TruncateRepresents(C: Positive, chunks: Chunks, path: string, flat: Bytes, length: nat)
    requires Represents(C, chunks, path, flat) && Bounded(C, chunks) && length <= |flat|
    ensures Key(path, length / C) in chunks
    ensures var key := Key(path, length / C);
      var after := chunks[key := Resized(chunks[key], length % C)];
      Bounded(C, after) && Represents(C, after, path, flat[..length])
  {
    var index, place := ChunkOf(C, length), PlaceIn(C, length);
    Located(C, length);
    PositionIsPresent(C, chunks, path, flat, index, place);
    var key := Key(path, index);
    var after := chunks[key := Resized(chunks[key], place)];
    forall i | 0 <= i < length
      ensures HasByte(after, Key(path, ChunkOf(C, i)), PlaceIn(C, i), flat[..length][i])
    {
      KeptByTruncate(C, chunks, path, flat, length, i);
    }
  }

  lemma KeptByTruncate(C: Positive, chunks: Chunks, path: string, flat: Bytes, length: nat, i: nat)
    requires Holds(C, chunks, path, flat) && i < length <= |flat| && Key(path, ChunkOf(C, length)) in chunks
    ensures var key := Key(path, ChunkOf(C, length));
      HasByte(chunks[key := Resized(chunks[key], PlaceIn(C, length))], Key(path, ChunkOf(C, i)), PlaceIn(C, i), flat[i])
  {
    hide ChunkOf, PlaceIn;
    Located(C, length);
    Located(C, i);
    assert HasByte(chunks, Key(path, ChunkOf(C, i)), PlaceIn(C, i), flat[i]);
  }

  lemma KeepsOtherFile(C: Positive, before: Chunks, after: Chunks, path: string, other: string, flat: Bytes)
    requires OthersUntouched(before, after, path) && other != path && Represents(C, before, other, flat)
    ensures Represents(C, after, other, flat)
  {
    hide ChunkOf, PlaceIn;
    forall i | 0 <= i < |flat|
      ensures HasByte(after, Key(other, ChunkOf(C, i)), PlaceIn(C, i), flat[i])
    {
      assert HasByte(before, Key(other, ChunkOf(C, i)), PlaceIn(C, i), flat[i]);
    }
  }

  /** Replacing one file on both sides. */
  lemma ReplaceFile(C: Positive, s: Store, f: Flat, path: string, flat: Bytes, chunks: Chunks)
    requires Refines(C, s, f)
    requires OthersUntouched(s.chunks, chunks, path) && Bounded(C, chunks) && Represents(C, chunks, path, flat)
    ensures Refines(C, Store(s.sizes[path := |flat|], chunks), f[path := flat])
  {
    hide Represents, OthersUntouched, Bounded;
    var t, g := Store(s.sizes[path := |flat|], chunks), f[path := flat];
    forall other | other in g
      ensures RefinesFile(C, t, g, other)
    {
      if other != path {
        assert RefinesFile(C, s, f, other);
        KeepsOtherFile(C, s.chunks, chunks, path, other, f[other]);
      }
    }
  }

  lemma FileIsHeld(C: Positive, s: Store, f: Flat, path: string)
    requires Refines(C, s, f)
    ensures SizeOf(s.sizes, path) == |Contents(f, path)|
    ensures Holds(C, s.chunks, path, Contents(f, path)) && Bounded(C, s.chunks)
    ensures path in f ==> Represents(C, s.chunks, path, Contents(f, path))
  {
    if path in f {
      assert RefinesFile(C, s, f, path);
    }
  }

  lemma WriteRefines(form: Form, C: Positive, s: Store, f: Flat, path: string, data: Bytes, offset: nat)
    requires Refines(C, s, f) && Permitted(form, C, f, Write(path, data, offset))
    ensures var (t, reply) := WriteFile(form, C, s, path, data, offset);
      reply == Count(|data|) && Refines(C, t, f[path := Overwrite(Contents(f, path), offset, data)])
  {
    hide Holds, Represents, Bounded, OthersUntouched, WritePieces, Split;
    var flat := Contents(f, path);
    FileIsHeld(C, s, f, path);
    WriteRepresents(form, C, s.chunks, path, flat, data, offset);
    GrownSizeIsExact(|flat|, offset + |data|);
    ReplaceFile(C, s, f, path, Overwrite(flat, offset, data), WritePieces(s.chunks, path, data, Split(form, C, |data|, offset)).value);
  }

  /** Every permitted operation answers as the flat files do and leaves chunks that stand for them. */
  lemma StepRefines(form: Form, C: Positive, s: Store, f: Flat, op: Op)
    requires Refines(C, s, f) && Permitted(form, C, f, op)
    ensures Exec(form, C, s, op).1 == FlatExec(f, op).1
    ensures Refines(C, Exec(form, C, s, op).0, FlatExec(f, op).0)
  {
    hide Represents, Split, WritePieces, ReadPieces, Bounded, Holds;
    FileIsHeld(C, s, f, op.path);
    var flat := Contents(f, op.path);
    match op
    case Create(path) =>
      assert FitsChunk(form, C, 0, 0);
      WriteRepresents(form, C, s.chunks, path, flat, [], 0);
      assert Overwrite(flat, 0, []) == flat;
      ReplaceFile(C, s, f, path, flat, WritePieces(s.chunks, path, [], Split(form, C, 0, 0)).value);
    case Write(path, data, offset) =>
      WriteRefines(form, C, s, f, path, data, offset);
    case Read(path, offset, size) =>
      if path in f && offset <= |flat| {
        ReadRepresents(form, C, s.chunks, path, flat, offset, Clamped(|flat|, offset, size));
      }
    case Truncate(path, length) =>
      if length >= 0 {
        TruncateRepresents(C, s.chunks, path, flat, length);
        var key := Key(path, length / C);
        ReplaceFile(C, s, f, path, flat[..length], s.chunks[key := Resized(s.chunks[key], length % C)]);
      }
    case Unlink(path) =>
      forall other | other in f - {path}
        ensures RefinesFile(C, s.(sizes := s.sizes - {path}), f - {path}, other)
      {
        assert RefinesFile(C, s, f, other);
      }
  }

  /** A read delivers the file from the offset on: as much as was asked for, or all there is up to the end. */
  ghost predicate Delivers(flat: Bytes, offset: nat, size: nat, reply: Reply) {
    && reply.Data?
    && |reply.bytes| <= size && offset + |reply.bytes| <= |flat|
    && reply.bytes == flat[offset..offset + |reply.bytes|]
    && (|reply.bytes| == size || offset + |reply.bytes| == |flat|)
  }

  /** With the intended loop every read does, with the loop as written every read within one chunk; beyond the end there is nothing. */
  lemma ReadDelivers(form: Form, C: Positive, s: Store, f: Flat, path: string, offset: nat, size: nat)
    requires Refines(C, s, f) && path in f
    ensures Permitted(form, C, f, Read(path, offset, size)) && offset <= |f[path]| ==>
      Delivers(f[path], offset, size, ReadFile(form, C, s, path, offset, size))
    ensures form.Intended? || offset % C + size <= C ==> Permitted(form, C, f, Read(path, offset, size))
    ensures offset > |f[path]| ==> ReadFile(form, C, s, path, offset, size) == Data([])
  {
    if Permitted(form, C, f, Read(path, offset, size)) {
      StepRefines(form, C, s, f, Read(path, offset, size));
    }
    FileIsHeld(C, s, f, path);
  }

  /** A truncate cuts the chunk in which the new size ends, or fills it with zeros, and touches no other chunk and no other size. */
  lemma TruncateCuts(C: Positive, s: Store, path: string, length: nat)
    ensures var (t, reply) := TruncateFile(C, s, path, length); var k := Key(path, length / C);
      if k in s.chunks then
        && reply == Done && t.sizes == s.sizes[path := length] && t.chunks.Keys == s.chunks.Keys
        && IsCut(s.chunks[k], t.chunks[k], length % C)
        && (forall other :: other in s.chunks && other != k ==> t.chunks[other] == s.chunks[other])
      else reply == Failed(KeyMissing) && t.chunks == s.chunks
  {
  }

  predicate IsCut(before: Bytes, after: Bytes, size: nat) {
    |after| == size && forall i :: 0 <= i < size ==> after[i] == if i < |before| then before[i] else 0
  }

  // ---------- exactly when ----------

  lemma {:induction false} WrittenPiecesFit(chunks: Chunks, uid: string, data: Bytes, ps: seq<Piece>, i: nat)
    requires WritePieces(chunks, uid, data, ps).Fine? && i < |ps|
    ensures ps[i].bufferStart + ps[i].delta <= |data|
    decreases |ps|
  {
    if i > 0 {
      WrittenPiecesFit(WritePiece(chunks, uid, data, ps[0]).value, uid, data, ps[1..], i - 1);
    }
  }

  lemma {:induction false} ReadPiecesFit(chunks: Chunks, uid: string, size: nat, ps: seq<Piece>, i: nat)
    requires ReadPieces(chunks, uid, size, ps).Fine? && i < |ps|
    ensures ps[i].bufferStart + ps[i].delta <= size
    ensures VisitedTo(chunks, uid, ps[i])
    decreases |ps|
  {
    if i > 0 {
      ReadPiecesFit(chunks, uid, size, ps[1..], i - 1);
    }
  }

  /** A write as written that leaves its first chunk overruns the buffer or makes a chunk too long. */
  lemma StrayWriteFails(C: Positive, chunks: Chunks, uid: string, data: Bytes, offset: nat)
    requires offset % C + |data| > C
    ensures var r := WritePieces(chunks, uid, data, Split(AsWritten, C, |data|, offset));
      r.Fine? ==> !Bounded(C, r.value)
  {
    var ps := Split(AsWritten, C, |data|, offset);
    AsWrittenStrays(C, |data|, offset);
    if WritePieces(chunks, uid, data, ps).Fine? {
      WrittenPiecesFit(chunks, uid, data, ps, |ps| - 1);
      WriteVisits(chunks, uid, data, ps);
      assert VisitedTo(WritePieces(chunks, uid, data, ps).value, uid, ps[0]);
    }
  }

  lemma StrayReadFails(C: Positive, chunks: Chunks, uid: string, size: nat, offset: nat)
    requires offset % C + size > C && Bounded(C, chunks)
    ensures !ReadPieces(chunks, uid, size, Split(AsWritten, C, size, offset)).Fine?
  {
    var ps := Split(AsWritten, C, size, offset);
    AsWrittenStrays(C, size, offset);
    if ReadPieces(chunks, uid, size, ps).Fine? {
      ReadPiecesFit(chunks, uid, size, ps, |ps| - 1);
      ReadPiecesFit(chunks, uid, size, ps, 0);
    }
  }

  /** A gap-free write does what it should if and only if it fits its chunk (as written) and its end fits an int. */
  lemma WriteRefinesExactly(form: Form, C: Positive, s: Store, f: Flat, path: string, data: Bytes, offset: nat)
    requires Refines(C, s, f) && offset <= |Contents(f, path)|
    ensures var (t, reply) := WriteFile(form, C, s, path, data, offset);
      reply == Count(|data|) && Refines(C, t, f[path := Overwrite(Contents(f, path), offset, data)])
      <==> FitsChunk(form, C, offset, |data|) && SizeFits(|Contents(f, path)|, offset + |data|)
  {
    hide Bounded, Represents, WritePieces, Split;
    var flat := Contents(f, path);
    if Permitted(form, C, f, Write(path, data, offset)) {
      WriteRefines(form, C, s, f, path, data, offset);
    } else if !FitsChunk(form, C, offset, |data|) {
      StrayWriteFails(C, s.chunks, path, data, offset);
    } else {
      FileIsHeld(C, s, f, path);
      GrownSizeIsExact(|flat|, offset + |data|);
      var (t, reply) := WriteFile(form, C, s, path, data, offset);
      var g := f[path := Overwrite(flat, offset, data)];
      assert path in g && !(path in t.sizes && RefinesFile(C, t, g, path));
    }
  }

  /** A read answers with the file's bytes if and only if, as written, what it clamps to fits its chunk. */
  lemma ReadRefinesExactly(form: Form, C: Positive, s: Store, f: Flat, path: string, offset: nat, size: nat)
    requires Refines(C, s, f)
    ensures ReadFile(form, C, s, path, offset, size) == FlatExec(f, Read(path, offset, size)).1
      <==> Permitted(form, C, f, Read(path, offset, size))
  {
    if Permitted(form, C, f, Read(path, offset, size)) {
      StepRefines(form, C, s, f, Read(path, offset, size));
    } else {
      FileIsHeld(C, s, f, path);
      StrayReadFails(C, s.chunks, path, Clamped(|f[path]|, offset, size), offset);
    }
  }

  // ---------- whole runs ----------

  function Replies(form: Form, C: Positive, s: Store, ops: seq<Op>): seq<Reply>
    decreases |ops|
  {
    if ops == [] then []
    else var (t, reply) := Exec(form, C, s, ops[0]); [reply] + Replies(form, C, t, ops[1..])
  }

  predicate AllPermitted(form: Form, C: Positive, f: Flat, ops: seq<Op>)
    decreases |ops|
  {
    ops != [] ==> Permitted(form, C, f, ops[0]) && AllPermitted(form, C, FlatExec(f, ops[0]).0, ops[1..])
  }

  function FlatReplies(f: Flat, ops: seq<Op>, form: Form, C: Positive): seq<Reply>
    requires AllPermitted(form, C, f, ops)
    decreases |ops|
  {
    if ops == [] then []
    else var (g, reply) := FlatExec(f, ops[0]); [reply] + FlatReplies(g, ops[1..], form, C)
  }

  lemma {:induction false} RunRefines(form: Form, C: Positive, s: Store, f: Flat, ops: seq<Op>)
    requires Refines(C, s, f) && AllPermitted(form, C, f, ops)
    ensures Replies(form, C, s, ops) == FlatReplies(f, ops, form, C)
    decreases |ops|
  {
    hide Refines, Exec, FlatExec;
    if ops != [] {
      StepRefines(form, C, s, f, ops[0]);
      RunRefines(form, C, Exec(form, C, s, ops[0]).0, FlatExec(f, ops[0]).0, ops[1..]);
    }
  }

  /** From an empty file system on, every permitted run is answered as flat files would answer it. */
  lemma ChunkedFilesAreFlatFiles(form: Form, C: Positive, ops: seq<Op>)
    requires AllPermitted(form, C, map[], ops)
    ensures Replies(form, C, Store(map[], map[]), ops) == FlatReplies(map[], ops, form, C)
  {
    RunRefines(form, C, Store(map[], map[]), map[], ops);
  }
}
