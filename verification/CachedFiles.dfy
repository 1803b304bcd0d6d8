/**
 The whole data path: the file operations over the write-back cache over DHT and
 hosts, with flushes in between, against plain files. Two sets of chunks stand
 for a file at any time: what is read now, and what will be read once every
 clean chunk has been evicted. They may differ, but only beyond the file's end.
 */
module CachedFiles {
  import opened Wrappers
  import opened Arithmetic
  import opened CopyLoop
  import opened ChunkedFile
  import opened FileSystem
  import opened Naming
  import CM = CacheMachine

  datatype Mount = Mount(sizes: map<string, nat>, cache: CM.Cache)

  /** create_if_missing, then write_to_chunk. */
  function StorePiece(c: CM.Cache, uid: string, data: Bytes, p: Piece): Outcome<CM.Cache> {
    if p.delta < 0 || p.bufferStart < 0 || p.bufferStart + p.delta > |data| then OutOfBounds
    else Fine(CM.Store(c, Key(uid, p.index), p.chunkStart, data[p.bufferStart..p.bufferStart + p.delta]))
  }

  function StorePieces(c: CM.Cache, uid: string, data: Bytes, ps: seq<Piece>): Outcome<CM.Cache>
    decreases |ps|
  {
    if ps == [] then Fine(c)
    else
      match StorePiece(c, uid, data, ps[0])
      case Fine(next) => StorePieces(next, uid, data, ps[1..])
      case bad => bad
  }

  /** raise_if_missing, then read_from_chunk. The loads stay even when a later piece fails. */
  function LoadPieces(c: CM.Cache, uid: string, size: nat, ps: seq<Piece>): (CM.Cache, Outcome<Bytes>)
    decreases |ps|
  {
    if ps == [] then (c, Fine([]))
    else
      var next := CM.Load(c, Key(uid, ps[0].index));
      match ReadPiece(next.whole, uid, size, ps[0])
      case Fine(head) =>
        var (last, tail) := LoadPieces(next, uid, size, ps[1..]);
        (last, Prefixed(head, tail))
      case bad => (next, bad)
  }

  datatype Act =
    | Request(op: Op)
    | Flush(uid: string, keys: seq<Key>, at: CM.Placement)   // dht_task: flush the file, then evict it
    | FlushAll(keys: seq<Key>, at: CM.Placement)             // invalidate the whole cache
    | DropAll                                                // purge the whole cache

  function TruncateOn(C: Positive, s: Mount, path: string, length: int): (Mount, Reply) {
    if length < 0 then (s, Invalid)
    else
      var key := Key(path, length / C);
      var c := CM.Load(s.cache, key);
      if key !in c.whole then (Mount(s.sizes[path := SizeOf(s.sizes, path)], c), Failed(KeyMissing))
      else (Mount(s.sizes[path := length], CM.Truncated(c, key, length % C)), Done)
  }

  function Serve(form: Form, C: Positive, s: Mount, op: Op): (Mount, Reply) {
    match op
    case Create(path) =>
      (match StorePieces(s.cache, path, [], Split(form, C, 0, 0))
       case Fine(c) => (Mount(s.sizes[path := SizeOf(s.sizes, path)], c), Done)
       case bad => (s, Failed(Why(bad))))
    case Write(path, data, offset) =>
      (match StorePieces(s.cache, path, data, Split(form, C, |data|, offset))
       case Fine(c) => (Mount(s.sizes[path := GrownSize(SizeOf(s.sizes, path), offset + |data|)], c), Count(|data|))
       case bad => (s, Failed(Why(bad))))
    case Read(path, offset, size) =>
      if path !in s.sizes then (s, NotFound)
      else if offset > s.sizes[path] then (s, Data([]))
      else
        var n := Clamped(s.sizes[path], offset, size);
        var (c, o) := LoadPieces(s.cache, path, n, Split(form, C, n, offset));
        (s.(cache := c), match o case Fine(bytes) => Data(bytes) case bad => Failed(Why(bad)))
    case Truncate(path, length) => TruncateOn(C, s, path, length)
    case Unlink(path) => (s.(sizes := s.sizes - {path}), Done)
  }

  /** The bytes a piece takes out of the buffer. */
  function PieceData(data: Bytes, p: Piece): Bytes {
    if p.delta < 0 || p.bufferStart < 0 || p.bufferStart + p.delta > |data| then []
    else data[p.bufferStart..p.bufferStart + p.delta]
  }

  /** What the store holds of the file in this chunk; anything beyond st_size is stale. */
  function Kept(C: Positive, s: Mount, k: Key): Bytes {
    var stored := CM.Stored(s.cache.remote, k);
    var end := SizeOf(s.sizes, k.uid) - k.cuid * C;
    if stored.None? || end <= 0 then [] else stored.value[..Min(|stored.value|, end)]
  }

  /** The piece finds its chunk resident, or overwrites all that the file has there but zeros. */
  predicate Ready(C: Positive, s: Mount, uid: string, data: Bytes, p: Piece) {
    var k := Key(uid, p.index);
    k in s.cache.whole || CM.CoversAllButZeros(Kept(C, s, k), p.chunkStart, PieceData(data, p))
  }

  predicate AllReady(C: Positive, s: Mount, uid: string, data: Bytes, ps: seq<Piece>) {
    forall i :: 0 <= i < |ps| ==> Ready(C, s, uid, data, ps[i])
  }

  /** What the cache asks of its callers; every clause can be checked before the call. */
  ghost predicate Allowed(form: Form, C: Positive, s: Mount, act: Act) {
    match act
    case Flush(uid, keys, _) => Absolute(uid) && CM.Lists(keys, s.cache, uid)
    case FlushAll(keys, _) => forall k :: k in keys <==> k in s.cache.dirty
    case DropAll => s.cache.dirty == {}
    case Request(op) =>
      Absolute(op.path) &&
      match op
      case Create(path) => AllReady(C, s, path, [], Split(form, C, 0, 0))
      case Write(path, data, offset) => AllReady(C, s, path, data, Split(form, C, |data|, offset))
      case _ => true
  }

  function Perform(form: Form, C: Positive, s: Mount, act: Act): Mount {
    match act
    case Request(op) => Serve(form, C, s, op).0
    case Flush(_, keys, at) => s.(cache := CM.FlushAndEvict(s.cache, keys, at))
    case FlushAll(keys, at) => s.(cache := CM.InvalidateAll(s.cache, keys, at))
    case DropAll => s.(cache := s.cache.(whole := map[], dirty := {}))
  }

  // ---------- what a mount stands for ----------

  /** m is what lasts of the chunks. */
  ghost predicate LastsAs(c: CM.Cache, m: Chunks) {
    forall k: Key :: Absolute(k.uid) ==> CM.Lasting(c, k) == if k in m then Some(m[k]) else None
  }

  /** Both what is read now and what lasts are chunks of the files f. */
  ghost predicate StandsFor(C: Positive, s: Mount, f: Flat, top: Chunks, bottom: Chunks) {
    && CM.Orderly(s.cache) && CM.Agrees(s.cache, top) && LastsAs(s.cache, bottom)
    && Refines(C, FileSystem.Store(s.sizes, top), f)
    && Refines(C, FileSystem.Store(s.sizes, bottom), f)
    && forall path :: path in f ==> Absolute(path)
  }

  /** Chunks taken partly from one representation and partly from another are a representation. */
  lemma MixRefines(C: Positive, sizes: map<string, nat>, f: Flat, top: Chunks, bottom: Chunks, m: Chunks)
    requires Refines(C, FileSystem.Store(sizes, top), f) && Refines(C, FileSystem.Store(sizes, bottom), f)
    requires forall path :: path in f ==> Absolute(path)
    requires forall k :: k in m ==> (k in top && m[k] == top[k]) || (k in bottom && m[k] == bottom[k])
    requires forall k: Key :: Absolute(k.uid) && k in top && k in bottom ==> k in m
    ensures Refines(C, FileSystem.Store(sizes, m), f)
  {
    hide Represents, FileSlice;
    forall path | path in f
      ensures path in sizes && RefinesFile(C, FileSystem.Store(sizes, m), f, path)
    {
      assert RefinesFile(C, FileSystem.Store(sizes, top), f, path);
      assert RefinesFile(C, FileSystem.Store(sizes, bottom), f, path);
      forall index: nat | index <= |f[path]| / C
        ensures ChunkServes(C, m, path, f[path], index)
      {
        ServesIfRepresents(C, top, path, f[path], index);
        ServesIfRepresents(C, bottom, path, f[path], index);
      }
      RepresentsIfServes(C, m, path, f[path]);
    }
  }

  /** Replacing some chunks of one file by others that serve it. */
  lemma PrimedRefines(C: Positive, sizes: map<string, nat>, f: Flat, m: Chunks, path: string, base: Chunks)
    requires Refines(C, FileSystem.Store(sizes, m), f)
    requires forall k :: k in base ==>
      k.uid == path && |base[k]| <= C && FileSlice(C, Contents(f, path), k.cuid) <= base[k]
    ensures Refines(C, FileSystem.Store(sizes, m + base), f)
  {
    hide Represents, FileSlice;
    forall p | p in f
      ensures RefinesFile(C, FileSystem.Store(sizes, m + base), f, p)
    {
      assert RefinesFile(C, FileSystem.Store(sizes, m), f, p);
      forall index: nat | index <= |f[p]| / C
        ensures ChunkServes(C, m + base, p, f[p], index)
      {
        ServesIfRepresents(C, m, p, f[p], index);
      }
      RepresentsIfServes(C, m + base, p, f[p]);
    }
  }

  /** What is read now of a chunk serves the file, if the chunk is resident. */
  lemma ResidentServes(C: Positive, s: Mount, f: Flat, top: Chunks, bottom: Chunks, k: Key)
    requires StandsFor(C, s, f, top, bottom) && k in s.cache.whole
    ensures |s.cache.whole[k]| <= C && FileSlice(C, Contents(f, k.uid), k.cuid) <= s.cache.whole[k]
  {
    hide Represents;
    assert CM.Logical(s.cache, k) == Some(top[k]);
    SliceLength(C, Contents(f, k.uid), k.cuid);
    if k.uid in f && k.cuid <= |f[k.uid]| / C {
      assert RefinesFile(C, FileSystem.Store(s.sizes, top), f, k.uid);
      ServesIfRepresents(C, top, k.uid, f[k.uid], k.cuid);
    }
  }

  lemma KeptIsSlice(C: Positive, s: Mount, f: Flat, top: Chunks, bottom: Chunks, k: Key)
    requires StandsFor(C, s, f, top, bottom) && Absolute(k.uid) && k !in s.cache.whole
    ensures Kept(C, s, k) == FileSlice(C, Contents(f, k.uid), k.cuid)
  {
    hide Represents;
    assert CM.Lasting(s.cache, k) == CM.Stored(s.cache.remote, k);
    SliceLength(C, Contents(f, k.uid), k.cuid);
    MulMono(C, 0, k.cuid);
    if k.uid in f {
      assert RefinesFile(C, FileSystem.Store(s.sizes, bottom), f, k.uid);
      if k.cuid <= |f[k.uid]| / C {
        ServesIfRepresents(C, bottom, k.uid, f[k.uid], k.cuid);
      }
    }
  }

  // ---------- flushes, evictions and drops ----------

  function Mixed(d: CM.Cache, top: Chunks, bottom: Chunks): Chunks {
    map k | k in top.Keys + bottom.Keys && Absolute(k.uid) && CM.Logical(d, k).Some? :: CM.Logical(d, k).value
  }

  lemma SettledStandsFor(C: Positive, s: Mount, f: Flat, top: Chunks, bottom: Chunks, d: CM.Cache)
    requires StandsFor(C, s, f, top, bottom) && CM.Orderly(d) && CM.Settles(s.cache, d)
    ensures StandsFor(C, s.(cache := d), f, Mixed(d, top, bottom), bottom)
  {
    hide Refines, CM.Orderly, CM.Logical, CM.Lasting;
    MixRefines(C, s.sizes, f, top, bottom, Mixed(d, top, bottom));
  }

  /** Flushing, evicting and dropping a clean cache leave a mount that stands for the same files. */
  lemma UpkeepStandsFor(form: Form, C: Positive, s: Mount, f: Flat, top: Chunks, bottom: Chunks, act: Act)
    returns (top': Chunks)
    requires StandsFor(C, s, f, top, bottom) && Allowed(form, C, s, act) && !act.Request?
    ensures StandsFor(C, Perform(form, C, s, act), f, top', bottom)
  {
    match act {
      case Flush(uid, keys, at) => CM.FlushAndEvictIsTransparent(s.cache, uid, keys, at);
      case FlushAll(keys, at) => CM.FlushAllIsTransparent(s.cache, keys, at);
      case DropAll => CM.DropIsTransparent(s.cache);
    }
    var d := Perform(form, C, s, act).cache;
    hide StandsFor, CM.Orderly, CM.Settles;
    SettledStandsFor(C, s, f, top, bottom, d);
    top' := Mixed(d, top, bottom);
  }

  // ---------- reading ----------

  lemma {:induction false} LoadsAgree(c: CM.Cache, m: Chunks, uid: string, size: nat, ps: seq<Piece>)
    requires CM.Orderly(c) && CM.Agrees(c, m) && Absolute(uid)
    ensures var (d, o) := LoadPieces(c, uid, size, ps);
      CM.Orderly(d) && CM.SameMeaning(c, d) && CM.Settles(c, d) && o == ReadPieces(m, uid, size, ps)
    decreases |ps|
  {
    hide CM.Orderly, CM.Settles;
    CM.SettlesTwice(c, c, c);
    if ps != [] {
      var k := Key(uid, ps[0].index);
      var next := CM.Load(c, k);
      CM.LoadIsTransparent(c, k);
      assert CM.Logical(c, k) == if k in m then Some(m[k]) else None;
      hide CM.Load, CM.Logical;
      LoadsAgree(next, m, uid, size, ps[1..]);
      CM.SettlesTwice(c, next, LoadPieces(next, uid, size, ps[1..]).0);
    }
  }

  lemma ReadStandsFor(form: Form, C: Positive, s: Mount, f: Flat, top: Chunks, bottom: Chunks, path: string, offset: nat, size: nat)
    requires StandsFor(C, s, f, top, bottom) && Absolute(path) && Permitted(form, C, f, Read(path, offset, size))
    ensures var (t, reply) := Serve(form, C, s, Read(path, offset, size));
      reply == FlatExec(f, Read(path, offset, size)).1 && StandsFor(C, t, f, top, bottom)
  {
    hide Refines, CM.Orderly, CM.Logical, CM.Lasting, Split, LoadPieces, ReadPieces;
    StepRefines(form, C, FileSystem.Store(s.sizes, top), f, Read(path, offset, size));
    if path in s.sizes && offset <= s.sizes[path] {
      var n := Clamped(s.sizes[path], offset, size);
      LoadsAgree(s.cache, top, path, n, Split(form, C, n, offset));
    }
  }

  /** Hit or miss, a read delivers the file from the offset on, up to what was asked for or to the end. */
  lemma CachedReadDelivers(form: Form, C: Positive, s: Mount, f: Flat, top: Chunks, bottom: Chunks, path: string, offset: nat, size: nat)
    requires StandsFor(C, s, f, top, bottom) && Absolute(path) && path in f && offset <= |f[path]|
    requires Permitted(form, C, f, Read(path, offset, size))
    ensures Delivers(f[path], offset, size, Serve(form, C, s, Read(path, offset, size)).1)
  {
    ReadStandsFor(form, C, s, f, top, bottom, path, offset, size);
    ReadDelivers(form, C, FileSystem.Store(s.sizes, top), f, path, offset, size);
    StepRefines(form, C, FileSystem.Store(s.sizes, top), f, Read(path, offset, size));
  }

  // ---------- truncating ----------

  /** Chunks of a file that were never truncated still represent the shorter file. */
  lemma LongerChunksServe(C: Positive, chunks: Chunks, path: string, flat: Bytes, length: nat)
    requires Represents(C, chunks, path, flat) && length <= |flat|
    ensures Represents(C, chunks, path, flat[..length])
  {
    hide Represents, FileSlice;
    DivMono(C, length, |flat|);
    forall index: nat | index <= length / C
      ensures ChunkServes(C, chunks, path, flat[..length], index)
    {
      ServesIfRepresents(C, chunks, path, flat, index);
      SlicesShrink(C, flat, length, index);
    }
    RepresentsIfServes(C, chunks, path, flat[..length]);
  }

  lemma ShortenedRefines(C: Positive, sizes: map<string, nat>, f: Flat, m: Chunks, path: string, length: nat)
    requires Refines(C, FileSystem.Store(sizes, m), f) && path in f && length <= |f[path]|
    ensures Refines(C, FileSystem.Store(sizes[path := length], m), f[path := f[path][..length]])
  {
    assert RefinesFile(C, FileSystem.Store(sizes, m), f, path);
    LongerChunksServe(C, m, path, f[path], length);
    UntouchedByNothing(m, path);
    ReplaceFile(C, FileSystem.Store(sizes, m), f, path, f[path][..length], m);
  }

  /** The chunk is truncated in what is read now, and in what lasts only if it is dirty; both stand for the shorter file. */
  lemma TruncateStandsFor(form: Form, C: Positive, s: Mount, f: Flat, top: Chunks, bottom: Chunks, path: string, length: nat)
    returns (top': Chunks, bottom': Chunks)
    requires StandsFor(C, s, f, top, bottom) && Absolute(path) && path in f && length <= |f[path]|
    ensures var (t, reply) := TruncateOn(C, s, path, length);
      reply == Done && StandsFor(C, t, f[path := f[path][..length]], top', bottom')
  {
    hide Represents, CM.Stored, Resized;
    var key := Key(path, length / C);
    var c := CM.Load(s.cache, key);
    CM.LoadIsTransparent(s.cache, key);
    FileIsHeld(C, FileSystem.Store(s.sizes, top), f, path);
    TruncateRepresents(C, top, path, f[path], length);
    StepRefines(form, C, FileSystem.Store(s.sizes, top), f, Truncate(path, length));
    assert CM.Logical(s.cache, key) == Some(top[key]);
    top' := top[key := Resized(top[key], length % C)];
    if key in c.dirty {
      assert CM.Lasting(s.cache, key) == Some(top[key]);
      bottom' := bottom[key := Resized(bottom[key], length % C)];
      StepRefines(form, C, FileSystem.Store(s.sizes, bottom), f, Truncate(path, length));
    } else {
      bottom' := bottom;
      ShortenedRefines(C, s.sizes, f, bottom, path, length);
    }
    hide Refines;
    TruncatedAgrees(c, top, bottom, key, length % C);
  }

  lemma TruncatedAgrees(c: CM.Cache, top: Chunks, bottom: Chunks, k: Key, size: nat)
    requires CM.Orderly(c) && CM.Agrees(c, top) && LastsAs(c, bottom) && k in c.whole
    ensures k in top && (k in c.dirty ==> k in bottom)
    ensures var d := CM.Truncated(c, k, size);
      && CM.Orderly(d) && CM.Agrees(d, top[k := Resized(top[k], size)])
      && LastsAs(d, if k in c.dirty then bottom[k := Resized(bottom[k], size)] else bottom)
  {
    hide Resized, CM.Stored;
    assert CM.Logical(c, k) == Some(top[k]);
    assert k in c.dirty ==> CM.Lasting(c, k) == Some(bottom[k]);
  }

  /** What is read of the chunk from now on is cut, whether it was resident or had to be fetched; nothing is flushed or marked dirty. */
  lemma CachedTruncateCuts(C: Positive, s: Mount, path: string, length: nat)
    requires CM.Orderly(s.cache) && Absolute(path)
    ensures var (t, reply) := TruncateOn(C, s, path, length); var k := Key(path, length / C);
      var before := CM.Logical(s.cache, k);
      && t.cache.remote == s.cache.remote && t.cache.dirty == s.cache.dirty
      && if before.Some? then
           && reply == Done && t.sizes == s.sizes[path := length]
           && k in t.cache.whole && IsCut(before.value, t.cache.whole[k], length % C)
         else reply == Failed(KeyMissing) && t.cache == s.cache
  {
    hide CM.Orderly, CM.Stored;
    CM.LoadIsTransparent(s.cache, Key(path, length / C));
  }

  // ---------- writing ----------

  predicate Distinct(ps: seq<Piece>) {
    forall i, j :: 0 <= i < j < |ps| ==> ps[i].index != ps[j].index
  }

  function PieceKeys(uid: string, ps: seq<Piece>): set<Key> {
    set i | 0 <= i < |ps| :: Key(uid, ps[i].index)
  }

  /** Writing piece p into the cache and into the chunks m gives the same chunk. */
  predicate Alike(c: CM.Cache, m: Chunks, uid: string, data: Bytes, p: Piece) {
    var k := Key(uid, p.index);
    k in m && WriteToChunk(Get(c.whole, k), p.chunkStart, PieceData(data, p)) == WriteToChunk(m[k], p.chunkStart, PieceData(data, p))
  }

  /** The chunks top and bottom agree with c but for the pieces still to come, for which writing is alike. */
  ghost predicate AgreeApart(c: CM.Cache, top: Chunks, bottom: Chunks, uid: string, data: Bytes, ps: seq<Piece>) {
    && (forall k: Key :: Absolute(k.uid) && k !in PieceKeys(uid, ps) ==>
          CM.Logical(c, k) == (if k in top then Some(top[k]) else None)
          && CM.Lasting(c, k) == (if k in bottom then Some(bottom[k]) else None))
    && (forall i :: 0 <= i < |ps| ==> Alike(c, top, uid, data, ps[i]) && Alike(c, bottom, uid, data, ps[i]))
  }

  /** Writing pieces through the cache does what writing them into such chunks does, failures included. */
  lemma {:induction false} StoresAgree(c: CM.Cache, top: Chunks, bottom: Chunks, uid: string, data: Bytes, ps: seq<Piece>)
    requires CM.Orderly(c) && Absolute(uid) && Distinct(ps) && AgreeApart(c, top, bottom, uid, data, ps)
    ensures var a, x, y := StorePieces(c, uid, data, ps), WritePieces(top, uid, data, ps), WritePieces(bottom, uid, data, ps);
      if a.Fine? then x.Fine? && y.Fine? && CM.Orderly(a.value) && CM.Agrees(a.value, x.value) && LastsAs(a.value, y.value)
      else !x.Fine? && !y.Fine? && Why(x) == Why(y) == Why(a)
    decreases |ps|
  {
    hide CM.Orderly, WriteToChunk, CM.Logical, CM.Lasting;
    if ps != [] {
      var p := ps[0];
      var k := Key(uid, p.index);
      if StorePiece(c, uid, data, p).Fine? {
        var d := StorePiece(c, uid, data, p).value;
        CM.StoreKeepsCoherent(c, k, p.chunkStart, PieceData(data, p));
        StillApart(c, top, bottom, uid, data, ps);
        hide AgreeApart, Distinct;
        StoresAgree(d, WritePiece(top, uid, data, p).value, WritePiece(bottom, uid, data, p).value, uid, data, ps[1..]);
      }
    }
  }

  lemma StillApart(c: CM.Cache, top: Chunks, bottom: Chunks, uid: string, data: Bytes, ps: seq<Piece>)
    requires ps != [] && CM.Orderly(c) && Absolute(uid) && Distinct(ps) && AgreeApart(c, top, bottom, uid, data, ps)
    requires StorePiece(c, uid, data, ps[0]).Fine?
    ensures Distinct(ps[1..])
    ensures AgreeApart(StorePiece(c, uid, data, ps[0]).value, WritePiece(top, uid, data, ps[0]).value,
                       WritePiece(bottom, uid, data, ps[0]).value, uid, data, ps[1..])
  {
    hide CM.Orderly, WriteToChunk, CM.Logical, CM.Lasting, PieceKeys;
    var p, rest := ps[0], ps[1..];
    var first := Key(uid, p.index);
    var d, t, b := StorePiece(c, uid, data, p).value, WritePiece(top, uid, data, p).value, WritePiece(bottom, uid, data, p).value;
    CM.StoreKeepsCoherent(c, first, p.chunkStart, PieceData(data, p));
    assert Alike(c, top, uid, data, p) && Alike(c, bottom, uid, data, p);
    assert t == top[first := t[first]] && b == bottom[first := b[first]];
    forall k: Key | Absolute(k.uid) && k !in PieceKeys(uid, rest)
      ensures CM.Logical(d, k) == (if k in t then Some(t[k]) else None)
      ensures CM.Lasting(d, k) == (if k in b then Some(b[k]) else None)
    {
      if k != first {
        KeyOfRest(uid, ps, k);
      }
    }
    forall i | 0 <= i < |rest|
      ensures Alike(d, t, uid, data, rest[i]) && Alike(d, b, uid, data, rest[i])
    {
      assert ps[i + 1] == rest[i] && ps[i + 1].index != p.index;
      StaysAlike(c, top, uid, data, p, rest[i]);
      StaysAlike(c, bottom, uid, data, p, rest[i]);
    }
  }

  lemma StaysAlike(c: CM.Cache, m: Chunks, uid: string, data: Bytes, p: Piece, q: Piece)
    requires StorePiece(c, uid, data, p).Fine? && q.index != p.index && Alike(c, m, uid, data, q)
    ensures Alike(StorePiece(c, uid, data, p).value, WritePiece(m, uid, data, p).value, uid, data, q)
  {
    hide WriteToChunk;
  }

  lemma KeyOfRest(uid: string, ps: seq<Piece>, k: Key)
    requires ps != []
    ensures k in PieceKeys(uid, ps) ==> k == Key(uid, ps[0].index) || k in PieceKeys(uid, ps[1..])
  {
    if k in PieceKeys(uid, ps) {
      var i :| 0 <= i < |ps| && k == Key(uid, ps[i].index);
      assert i > 0 ==> ps[1..][i - 1] == ps[i];
    }
  }

  /** Where a piece meets a chunk that is not resident, it may as well find the file's slice there. */
  function Base(C: Positive, c: CM.Cache, flat: Bytes, uid: string, ps: seq<Piece>): Chunks {
    map k | k in PieceKeys(uid, ps) :: if k in c.whole then c.whole[k] else FileSlice(C, flat, k.cuid)
  }

  lemma BaseRefines(C: Positive, s: Mount, f: Flat, top: Chunks, bottom: Chunks, path: string, ps: seq<Piece>)
    requires StandsFor(C, s, f, top, bottom) && Absolute(path)
    ensures var base := Base(C, s.cache, Contents(f, path), path, ps);
      && Refines(C, FileSystem.Store(s.sizes, top + base), f)
      && Refines(C, FileSystem.Store(s.sizes, bottom + base), f)
  {
    var base := Base(C, s.cache, Contents(f, path), path, ps);
    forall k | k in base
      ensures k.uid == path && |base[k]| <= C && FileSlice(C, Contents(f, path), k.cuid) <= base[k]
    {
      if k in s.cache.whole {
        ResidentServes(C, s, f, top, bottom, k);
      } else {
        MulMono(C, 0, k.cuid);
      }
    }
    PrimedRefines(C, s.sizes, f, top, path, base);
    PrimedRefines(C, s.sizes, f, bottom, path, base);
  }

  lemma BaseAgreesApart(C: Positive, s: Mount, f: Flat, top: Chunks, bottom: Chunks, path: string, data: Bytes, ps: seq<Piece>)
    requires StandsFor(C, s, f, top, bottom) && Absolute(path) && AllReady(C, s, path, data, ps)
    ensures var base := Base(C, s.cache, Contents(f, path), path, ps);
      AgreeApart(s.cache, top + base, bottom + base, path, data, ps)
  {
    hide Refines, CM.Orderly, CM.Logical, CM.Lasting, WriteToChunk, Kept, FileSlice;
    var base := Base(C, s.cache, Contents(f, path), path, ps);
    forall i | 0 <= i < |ps|
      ensures Alike(s.cache, top + base, path, data, ps[i]) && Alike(s.cache, bottom + base, path, data, ps[i])
    {
      var k := Key(path, ps[i].index);
      assert k in PieceKeys(path, ps) && Ready(C, s, path, data, ps[i]);
      if k !in s.cache.whole {
        KeptIsSlice(C, s, f, top, bottom, k);
        CM.BlankLooksLike(base[k], ps[i].chunkStart, PieceData(data, ps[i]));
      }
    }
  }

  lemma SplitIsDistinct(form: Form, C: Positive, size: nat, offset: nat)
    ensures Distinct(Split(form, C, size, offset))
  {
    SplitIndices(form, C, size, offset);
  }

  /** create and write: the bases stand for the same files, and writing them stands for the cached write. */
  lemma StoredStandsFor(form: Form, C: Positive, s: Mount, f: Flat, top: Chunks, bottom: Chunks, op: Op)
    returns (top': Chunks, bottom': Chunks)
    requires StandsFor(C, s, f, top, bottom) && (op.Create? || op.Write?)
    requires Allowed(form, C, s, Request(op)) && Permitted(form, C, f, op)
    ensures var (t, reply) := Serve(form, C, s, op);
      reply == FlatExec(f, op).1 && StandsFor(C, t, FlatExec(f, op).0, top', bottom')
  {
    hide Refines, CM.Orderly, CM.Agrees, LastsAs, Split, StorePieces, WritePieces, AllReady, AgreeApart, Base;
    var data, offset := if op.Write? then op.data else [], if op.Write? then op.offset else 0;
    var ps := Split(form, C, |data|, offset);
    var base := Base(C, s.cache, Contents(f, op.path), op.path, ps);
    SplitIsDistinct(form, C, |data|, offset);
    BaseRefines(C, s, f, top, bottom, op.path, ps);
    BaseAgreesApart(C, s, f, top, bottom, op.path, data, ps);
    StoresAgree(s.cache, top + base, bottom + base, op.path, data, ps);
    StepRefines(form, C, FileSystem.Store(s.sizes, top + base), f, op);
    StepRefines(form, C, FileSystem.Store(s.sizes, bottom + base), f, op);
    top' := Exec(form, C, FileSystem.Store(s.sizes, top + base), op).0.chunks;
    bottom' := Exec(form, C, FileSystem.Store(s.sizes, bottom + base), op).0.chunks;
  }

  /** Every allowed and permitted request is answered as by plain files, and leaves a mount that stands for them. */
  lemma ServeStandsFor(form: Form, C: Positive, s: Mount, f: Flat, top: Chunks, bottom: Chunks, op: Op)
    returns (top': Chunks, bottom': Chunks)
    requires StandsFor(C, s, f, top, bottom)
    requires Allowed(form, C, s, Request(op)) && Permitted(form, C, f, op)
    ensures var (t, reply) := Serve(form, C, s, op);
      reply == FlatExec(f, op).1 && StandsFor(C, t, FlatExec(f, op).0, top', bottom')
  {
    hide Refines, CM.Orderly, CM.Agrees, LastsAs, Split, AllReady;
    top', bottom' := top, bottom;
    match op {
      case Create(_) => top', bottom' := StoredStandsFor(form, C, s, f, top, bottom, op);
      case Write(_, _, _) => top', bottom' := StoredStandsFor(form, C, s, f, top, bottom, op);
      case Read(path, offset, size) => ReadStandsFor(form, C, s, f, top, bottom, path, offset, size);
      case Truncate(path, length) =>
        if length >= 0 {
          top', bottom' := TruncateStandsFor(form, C, s, f, top, bottom, path, length);
        }
      case Unlink(path) =>
        StepRefines(form, C, FileSystem.Store(s.sizes, top), f, op);
        StepRefines(form, C, FileSystem.Store(s.sizes, bottom), f, op);
    }
  }

  // ---------- exactly when a write through the cache is right ----------

  /** Every permitted read of the file is answered as f says. */
  ghost predicate ReadsAs(form: Form, C: Positive, s: Mount, f: Flat, path: string) {
    forall offset: nat, size: nat :: Permitted(form, C, f, Read(path, offset, size)) ==>
      Serve(form, C, s, Read(path, offset, size)).1 == FlatExec(f, Read(path, offset, size)).1
  }

  lemma {:induction false} StoredPiece(c: CM.Cache, uid: string, data: Bytes, ps: seq<Piece>, i: nat)
    requires StorePieces(c, uid, data, ps).Fine? && i < |ps| && Distinct(ps)
    ensures var k := Key(uid, ps[i].index); var d := StorePieces(c, uid, data, ps).value;
      k in d.whole && d.whole[k] == WriteToChunk(Get(c.whole, k), ps[i].chunkStart, PieceData(data, ps[i]))
    decreases |ps|
  {
    hide WriteToChunk;
    var next := StorePiece(c, uid, data, ps[0]).value;
    if i == 0 {
      OtherPiecesKeep(next, uid, data, ps[1..], Key(uid, ps[0].index));
    } else {
      StoredPiece(next, uid, data, ps[1..], i - 1);
    }
  }

  lemma {:induction false} OtherPiecesKeep(c: CM.Cache, uid: string, data: Bytes, ps: seq<Piece>, k: Key)
    requires StorePieces(c, uid, data, ps).Fine? && k in c.whole
    requires forall i :: 0 <= i < |ps| ==> Key(uid, ps[i].index) != k
    ensures var d := StorePieces(c, uid, data, ps).value; k in d.whole && d.whole[k] == c.whole[k]
    decreases |ps|
  {
    hide WriteToChunk;
    if ps != [] {
      OtherPiecesKeep(StorePiece(c, uid, data, ps[0]).value, uid, data, ps[1..], k);
    }
  }

  lemma {:induction false} WrittenPiece(m: Chunks, uid: string, data: Bytes, ps: seq<Piece>, i: nat)
    requires WritePieces(m, uid, data, ps).Fine? && i < |ps| && Distinct(ps)
    ensures var k := Key(uid, ps[i].index); var d := WritePieces(m, uid, data, ps).value;
      k in d && d[k] == WriteToChunk(Get(m, k), ps[i].chunkStart, PieceData(data, ps[i]))
    decreases |ps|
  {
    hide WriteToChunk;
    var next := WritePiece(m, uid, data, ps[0]).value;
    if i == 0 {
      OtherWritesKeep(next, uid, data, ps[1..], Key(uid, ps[0].index));
    } else {
      WrittenPiece(next, uid, data, ps[1..], i - 1);
    }
  }

  lemma {:induction false} OtherWritesKeep(m: Chunks, uid: string, data: Bytes, ps: seq<Piece>, k: Key)
    requires WritePieces(m, uid, data, ps).Fine? && k in m
    requires forall i :: 0 <= i < |ps| ==> Key(uid, ps[i].index) != k
    ensures var d := WritePieces(m, uid, data, ps).value; k in d && d[k] == m[k]
    decreases |ps|
  {
    hide WriteToChunk;
    if ps != [] {
      OtherWritesKeep(WritePiece(m, uid, data, ps[0]).value, uid, data, ps[1..], k);
    }
  }

  /** A chunk started from a blank does not serve the file, if the file had more there than the piece and zeros. */
  lemma BlankDoesNotServe(prior: Bytes, want: Bytes, start: nat, data: Bytes)
    requires !CM.CoversAllButZeros(prior, start, data)
    requires want <= WriteToChunk(prior, start, data) && |prior| <= |want|
    ensures !(want <= WriteToChunk([], start, data))
  {
    if |prior| <= start + |data| {
      var i :| 0 <= i < |prior| && i < start && prior[i] != 0;
      CM.BlankLooksLike(prior, start, data);
      BlankIsZero(start, data, i);
      assert want[i] == WriteToChunk(prior, start, data)[i] == prior[i];
    }
  }

  lemma BlankIsZero(start: nat, data: Bytes, i: nat)
    requires i < start
    ensures WriteToChunk([], start, data)[i] == 0
  {
    assert Resized([], start + |data|)[..start] == WriteToChunk([], start, data)[..start];
  }

  /** A resident chunk that does not serve its file betrays itself to the read of the file's slice there. */
  lemma WrongChunkIsRead(form: Form, C: Positive, s: Mount, f: Flat, path: string, index: nat)
    requires path in f && path in s.sizes && s.sizes[path] == |f[path]| && Key(path, index) in s.cache.whole
    requires !(FileSlice(C, f[path], index) <= s.cache.whole[Key(path, index)])
    ensures !ReadsAs(form, C, s, f, path)
  {
    hide Split, Pieces;
    var slice, low := FileSlice(C, f[path], index), index * C;
    Locate(C, index, 0);
    assert 0 <= low < |f[path]| && 0 < |slice| <= C;
    var op := Read(path, low, |slice|);
    assert Clamped(|f[path]|, low, |slice|) == |slice|;
    assert Permitted(form, C, f, op) && FlatExec(f, op).1 == Data(slice);
    var ps := Split(form, C, |slice|, low);
    FirstRound(form, C, |slice|, low);
    assert ps[0] == Piece(index, 0, 0, |slice|);
    FirstPieceDecides(s.cache, path, slice, ps);
  }

  lemma FirstPieceDecides(c: CM.Cache, uid: string, want: Bytes, ps: seq<Piece>)
    requires ps != [] && ps[0] == Piece(ps[0].index, 0, 0, |want|) && Key(uid, ps[0].index) in c.whole
    requires !(want <= c.whole[Key(uid, ps[0].index)])
    ensures LoadPieces(c, uid, |want|, ps).1 != Fine(want)
  {
    var chunk := c.whole[Key(uid, ps[0].index)];
    if |chunk| >= |want| {
      assert chunk[..|want|] != want;
      var (last, tail) := LoadPieces(c, uid, |want|, ps[1..]);
      if tail.Fine? {
        assert (chunk[..|want|] + tail.value)[..|want|] == chunk[..|want|];
      }
    }
  }

  lemma SliceGrows(C: Positive, flat: Bytes, offset: nat, data: Bytes, index: nat)
    requires offset <= |flat|
    ensures |FileSlice(C, flat, index)| <= |FileSlice(C, Overwrite(flat, offset, data), index)|
  {
  }

  /** A piece that is not ready leaves a chunk that does not serve the overwritten file. */
  lemma UnreadyPieceSpoils(form: Form, C: Positive, s: Mount, f: Flat, top: Chunks, bottom: Chunks, path: string, data: Bytes, offset: nat, i: nat)
    requires StandsFor(C, s, f, top, bottom) && Absolute(path) && Permitted(form, C, f, Write(path, data, offset))
    requires i < |Split(form, C, |data|, offset)| && !Ready(C, s, path, data, Split(form, C, |data|, offset)[i])
    ensures StorePieces(s.cache, path, data, Split(form, C, |data|, offset)).Fine?
    ensures var ps := Split(form, C, |data|, offset);
      var k := Key(path, ps[i].index); var d := StorePieces(s.cache, path, data, ps).value;
      k in d.whole && !(FileSlice(C, Overwrite(Contents(f, path), offset, data), ps[i].index) <= d.whole[k])
  {
    hide Refines, CM.Orderly, CM.Agrees, LastsAs, Split, WriteToChunk, Kept, FileSlice, Overwrite;
    var ps := Split(form, C, |data|, offset);
    var flat, p := Contents(f, path), ps[i];
    var base := Base(C, s.cache, flat, path, ps);
    var k := Key(path, p.index);
    SplitIsDistinct(form, C, |data|, offset);
    BaseRefines(C, s, f, top, bottom, path, ps);
    KeptIsSlice(C, s, f, top, bottom, k);
    WriteRefines(form, C, FileSystem.Store(s.sizes, top + base), f, path, data, offset);
    var m := WritePieces(top + base, path, data, ps).value;
    WrittenPiece(top + base, path, data, ps, i);
    FineAlike(s.cache, top + base, path, data, ps);
    StoredPiece(s.cache, path, data, ps, i);
    assert k in PieceKeys(path, ps);
    var want := FileSlice(C, Overwrite(flat, offset, data), p.index);
    WrittenServes(form, C, s, f, top + base, path, data, offset, i);
    SliceGrows(C, flat, offset, data, p.index);
    BlankDoesNotServe(FileSlice(C, flat, p.index), want, p.chunkStart, PieceData(data, p));
  }

  /** Bounds alone decide whether the copy comes through. */
  lemma {:induction false} FineAlike(c: CM.Cache, m: Chunks, uid: string, data: Bytes, ps: seq<Piece>)
    ensures StorePieces(c, uid, data, ps).Fine? <==> WritePieces(m, uid, data, ps).Fine?
    decreases |ps|
  {
    if ps != [] && StorePiece(c, uid, data, ps[0]).Fine? {
      FineAlike(StorePiece(c, uid, data, ps[0]).value, WritePiece(m, uid, data, ps[0]).value, uid, data, ps[1..]);
    }
  }

  lemma WrittenServes(form: Form, C: Positive, s: Mount, f: Flat, m: Chunks, path: string, data: Bytes, offset: nat, i: nat)
    requires Refines(C, FileSystem.Store(s.sizes, m), f) && Permitted(form, C, f, Write(path, data, offset))
    requires i < |Split(form, C, |data|, offset)|
    requires WritePieces(m, path, data, Split(form, C, |data|, offset)).Fine?
    ensures var ps := Split(form, C, |data|, offset); var k := Key(path, ps[i].index);
      var d := WritePieces(m, path, data, ps).value;
      k in d && FileSlice(C, Overwrite(Contents(f, path), offset, data), ps[i].index) <= d[k]
  {
    hide Represents, FileSlice, Split, WritePieces, Bounded;
    var g := f[path := Overwrite(Contents(f, path), offset, data)];
    var t := WriteFile(form, C, FileSystem.Store(s.sizes, m), path, data, offset).0;
    WriteRefines(form, C, FileSystem.Store(s.sizes, m), f, path, data, offset);
    assert RefinesFile(C, t, g, path);
    PiecesInFile(form, C, |data|, offset, |g[path]|, i);
    ServesIfRepresents(C, t.chunks, path, g[path], Split(form, C, |data|, offset)[i].index);
  }

  lemma PiecesInFile(form: Form, C: Positive, size: nat, offset: nat, length: nat, i: nat)
    requires offset + size <= length && i < |Split(form, C, size, offset)|
    ensures Split(form, C, size, offset)[i].index <= length / C
  {
    SplitIndices(form, C, size, offset);
    DivMono(C, offset + size, length);
  }

  /**
   A permitted write through the cache is read back correctly, by every permitted
   read of the file, if and only if all its pieces are ready: each finds its chunk
   resident or overwrites all that the file has there but zeros. This includes the
   piece of no bytes that a write ending at a chunk boundary makes in the next chunk.
   */
  lemma CachedWriteExactly(form: Form, C: Positive, s: Mount, f: Flat, top: Chunks, bottom: Chunks, path: string, data: Bytes, offset: nat)
    requires StandsFor(C, s, f, top, bottom) && Absolute(path) && Permitted(form, C, f, Write(path, data, offset))
    ensures var (t, reply) := Serve(form, C, s, Write(path, data, offset));
      && reply == Count(|data|)
      && (ReadsAs(form, C, t, f[path := Overwrite(Contents(f, path), offset, data)], path)
          <==> AllReady(C, s, path, data, Split(form, C, |data|, offset)))
  {
    hide StandsFor, Split, Ready, StorePieces, WritePieces, ReadsAs, FileSlice;
    var op := Write(path, data, offset);
    var ps := Split(form, C, |data|, offset);
    var g := f[path := Overwrite(Contents(f, path), offset, data)];
    var (t, reply) := Serve(form, C, s, op);
    if AllReady(C, s, path, data, ps) {
      var top', bottom' := ServeStandsFor(form, C, s, f, top, bottom, op);
      StandingReads(form, C, t, g, top', bottom', path);
    } else {
      var i :| 0 <= i < |ps| && !Ready(C, s, path, data, ps[i]);
      UnreadyPieceSpoils(form, C, s, f, top, bottom, path, data, offset, i);
      SizeIsKept(C, s, f, top, bottom, path);
      GrownSizeIsExact(|Contents(f, path)|, offset + |data|);
      WrongChunkIsRead(form, C, t, g, path, ps[i].index);
    }
  }

  lemma SizeIsKept(C: Positive, s: Mount, f: Flat, top: Chunks, bottom: Chunks, path: string)
    requires StandsFor(C, s, f, top, bottom)
    ensures SizeOf(s.sizes, path) == |Contents(f, path)|
  {
    FileIsHeld(C, FileSystem.Store(s.sizes, top), f, path);
  }

  lemma StandingReads(form: Form, C: Positive, s: Mount, f: Flat, top: Chunks, bottom: Chunks, path: string)
    requires StandsFor(C, s, f, top, bottom) && Absolute(path)
    ensures ReadsAs(form, C, s, f, path)
  {
    forall offset: nat, size: nat | Permitted(form, C, f, Read(path, offset, size))
      ensures Serve(form, C, s, Read(path, offset, size)).1 == FlatExec(f, Read(path, offset, size)).1
    {
      ReadStandsFor(form, C, s, f, top, bottom, path, offset, size);
    }
  }

  // ---------- whole runs ----------

  ghost predicate AllAllowed(form: Form, C: Positive, s: Mount, acts: seq<Act>)
    decreases |acts|
  {
    acts != [] ==> Allowed(form, C, s, acts[0]) && AllAllowed(form, C, Perform(form, C, s, acts[0]), acts[1..])
  }

  function Requests(acts: seq<Act>): seq<Op> {
    if acts == [] then []
    else (if acts[0].Request? then [acts[0].op] else []) + Requests(acts[1..])
  }

  function Answers(form: Form, C: Positive, s: Mount, acts: seq<Act>): seq<Reply>
    decreases |acts|
  {
    if acts == [] then []
    else
      (if acts[0].Request? then [Serve(form, C, s, acts[0].op).1] else [])
      + Answers(form, C, Perform(form, C, s, acts[0]), acts[1..])
  }

  lemma {:induction false} RunStandsFor(form: Form, C: Positive, s: Mount, f: Flat, top: Chunks, bottom: Chunks, acts: seq<Act>)
    requires StandsFor(C, s, f, top, bottom)
    requires AllAllowed(form, C, s, acts) && AllPermitted(form, C, f, Requests(acts))
    ensures Answers(form, C, s, acts) == FlatReplies(f, Requests(acts), form, C)
    decreases |acts|
  {
    hide StandsFor, Allowed, Serve, FlatExec;
    if acts != [] {
      var next, rest := Perform(form, C, s, acts[0]), Requests(acts[1..]);
      if acts[0].Request? {
        var op := acts[0].op;
        assert Requests(acts) == [op] + rest;
        assert Requests(acts)[0] == op && Requests(acts)[1..] == rest;
        var top', bottom' := ServeStandsFor(form, C, s, f, top, bottom, op);
        RunStandsFor(form, C, next, FlatExec(f, op).0, top', bottom', acts[1..]);
      } else {
        assert Requests(acts) == rest;
        var top' := UpkeepStandsFor(form, C, s, f, top, bottom, acts[0]);
        RunStandsFor(form, C, next, f, top', bottom, acts[1..]);
        assert Answers(form, C, s, acts) == Answers(form, C, next, acts[1..]);
      }
    }
  }

  const MOUNTED := Mount(map[], CM.EMPTY)

  /**
   End to end: from an empty file system, whatever is flushed, evicted or dropped
   in between, every request is answered as plain files would answer it.
   */
  lemma CachedFilesAreFlatFiles(form: Form, C: Positive, acts: seq<Act>)
    requires AllAllowed(form, C, MOUNTED, acts)
    requires AllPermitted(form, C, map[], Requests(acts))
    ensures Answers(form, C, MOUNTED, acts) == FlatReplies(map[], Requests(acts), form, C)
  {
    RunStandsFor(form, C, MOUNTED, map[], map[], map[], acts);
  }
}
