/**
 The write-back chunk cache over the remote store, as a state machine. A chunk
 is found through the DHT, which says on which host it lies, and on that host.
 */
module CacheMachine {
  import opened Wrappers
  import opened ChunkedFile
  import opened Naming

  type Host = string

  datatype Remote = Remote(dht: map<string, Host>, hosts: map<Host, map<Key, Bytes>>)

  /** What a read through DHT and host would fetch. */
  function Stored(r: Remote, k: Key): Option<Bytes> {
    var name := DhtKey(k.uid, k.cuid);
    if name in r.dht && r.dht[name] in r.hosts && k in r.hosts[r.dht[name]] then Some(r.hosts[r.dht[name]][k])
    else None
  }

  function Deposit(r: Remote, host: Host, k: Key, data: Bytes): Remote {
    r.(hosts := r.hosts[host := (if host in r.hosts then r.hosts[host] else map[])[k := data]])
  }

  function Publish(r: Remote, host: Host, k: Key): Remote {
    r.(dht := r.dht[DhtKey(k.uid, k.cuid) := host])
  }

  datatype Cache = Cache(
    whole: map<Key, Bytes>,          // resident chunks
    dirty: set<Key>,                 // keys of the dirty map
    index: map<string, set<nat>>,    // index_map_
    remote: Remote
  )

  const EMPTY := Cache(map[], {}, map[], Remote(map[], map[]))

  /** The content of a chunk as the file system means it: the resident value, else the stored one. */
  function Logical(c: Cache, k: Key): Option<Bytes> {
    if k in c.whole then Some(c.whole[k]) else Stored(c.remote, k)
  }

  /** operator(): on a miss the chunk is fetched and becomes resident, unless it is nowhere. */
  function Load(c: Cache, k: Key): Cache {
    if k in c.whole || Stored(c.remote, k).None? then c
    else c.(whole := c.whole[k := Stored(c.remote, k).value])
  }

  /** operator[] through create_if_missing, followed by the caller's write_to_chunk. A miss starts from a blank. */
  function Store(c: Cache, k: Key, start: nat, data: Bytes): Cache {
    c.(whole := c.whole[k := WriteToChunk(Get(c.whole, k), start, data)],
       dirty := c.dirty + {k},
       index := Record(c.index, k))
  }

  function Record(index: map<string, set<nat>>, k: Key): map<string, set<nat>> {
    index[k.uid := (if k.uid in index then index[k.uid] else {}) + {k.cuid}]
  }

  function OnFlush(c: Cache, k: Key, host: Host): Cache
    requires k in c.whole
  {
    c.(remote := Publish(Deposit(c.remote, host, k, c.whole[k]), host, k))
  }

  /** invalidate(key): flushes a dirty chunk and makes it clean. */
  function Invalidate(c: Cache, k: Key, host: Host): Cache {
    if k in c.dirty && k in c.whole then OnFlush(c, k, host).(dirty := c.dirty - {k}) else c
  }

  /** purge(key): the chunk leaves the cache, flushed or not. */
  function Purge(c: Cache, k: Key): Cache {
    c.(whole := c.whole - {k}, dirty := c.dirty - {k})
  }

  /** A flush target for every key; CSScheduler picks hosts at random. */
  type Placement = Key -> Host

  function InvalidateAll(c: Cache, keys: seq<Key>, at: Placement): Cache
    decreases |keys|
  {
    if keys == [] then c else InvalidateAll(Invalidate(c, keys[0], at(keys[0])), keys[1..], at)
  }

  function PurgeAll(c: Cache, keys: seq<Key>): Cache
    decreases |keys|
  {
    if keys == [] then c else PurgeAll(Purge(c, keys[0]), keys[1..])
  }

  function Recorded(c: Cache, uid: string): set<nat> {
    if uid in c.index then c.index[uid] else {}
  }

  /** keys lists the chunks index_map_ has for the file, in some order. */
  ghost predicate Lists(keys: seq<Key>, c: Cache, uid: string) {
    forall k :: k in keys <==> k.uid == uid && k.cuid in Recorded(c, uid)
  }

  /** dht_task on a file's data: flush every recorded chunk, then evict it. */
  function FlushAndEvict(c: Cache, keys: seq<Key>, at: Placement): Cache {
    PurgeAll(InvalidateAll(c, keys, at), keys)
  }

  // ---------- the invariant ----------

  /** What will be left of a chunk once every clean chunk has been evicted. */
  function Lasting(c: Cache, k: Key): Option<Bytes> {
    if k in c.dirty && k in c.whole then Some(c.whole[k]) else Stored(c.remote, k)
  }

  /** Published chunks are where the DHT says, and the dirty chunks are resident and recorded. */
  ghost predicate Orderly(c: Cache) {
    && c.dirty <= c.whole.Keys
    && (forall k :: k in c.whole ==> Absolute(k.uid))
    && (forall k :: k in c.dirty ==> k.cuid in Recorded(c, k.uid))
    && (forall k: Key :: Absolute(k.uid) && DhtKey(k.uid, k.cuid) in c.remote.dht ==> Stored(c.remote, k).Some?)
  }

  /** Moreover a clean resident chunk equals the stored one. */
  ghost predicate Coherent(c: Cache) {
    && Orderly(c)
    && forall k :: k in c.whole ==> k in c.dirty || Stored(c.remote, k) == Some(c.whole[k])
  }

  /** Every chunk of an absolute path means the same before and after. */
  ghost predicate SameMeaning(c: Cache, d: Cache) {
    forall k: Key :: Absolute(k.uid) ==> Logical(c, k) == Logical(d, k)
  }

  /** Nothing that lasts is lost, and at most some chunks fall back to what lasts of them. */
  ghost predicate Settles(c: Cache, d: Cache) {
    forall k: Key :: Absolute(k.uid) ==>
      Lasting(d, k) == Lasting(c, k) && (Logical(d, k) == Logical(c, k) || Logical(d, k) == Lasting(c, k))
  }

  /** In a coherent cache the two are one. */
  lemma CoherentMeansLasting(c: Cache, d: Cache)
    requires Coherent(c)
    ensures forall k :: Lasting(c, k) == Logical(c, k)
    ensures Settles(c, d) ==> SameMeaning(c, d)
  {
    forall k
      ensures Lasting(c, k) == Logical(c, k)
    {
      hide Stored;
    }
    hide Coherent, Lasting, Logical;
  }

  /** A flush changes what is stored for its own chunk only. */
  lemma FlushStores(r: Remote, host: Host, k: Key, data: Bytes, other: Key)
    requires Absolute(k.uid) && Absolute(other.uid)
    requires forall j: Key :: Absolute(j.uid) && DhtKey(j.uid, j.cuid) in r.dht ==> Stored(r, j).Some?
    ensures var after := Publish(Deposit(r, host, k, data), host, k);
      Stored(after, other) == if other == k then Some(data) else Stored(r, other)
  {
    if DhtKey(k.uid, k.cuid) == DhtKey(other.uid, other.cuid) {
      DhtKeyIsInjective(k.uid, k.cuid, other.uid, other.cuid);
    }
  }

  lemma FlushPublishes(c: Cache, k: Key, host: Host)
    requires Orderly(c) && Absolute(k.uid) && k in c.dirty
    ensures var after := OnFlush(c, k, host).remote;
      forall j: Key :: Absolute(j.uid) && DhtKey(j.uid, j.cuid) in after.dht ==> Stored(after, j).Some?
  {
    forall j: Key | Absolute(j.uid) && DhtKey(j.uid, j.cuid) in OnFlush(c, k, host).remote.dht
      ensures Stored(OnFlush(c, k, host).remote, j).Some?
    {
      FlushStores(c.remote, host, k, c.whole[k], j);
      if DhtKey(j.uid, j.cuid) == DhtKey(k.uid, k.cuid) {
        DhtKeyIsInjective(j.uid, j.cuid, k.uid, k.cuid);
      }
    }
  }

  /** A flush changes no content, resident or lasting; the chunk is clean and equals the stored one. */
  lemma InvalidateIsTransparent(c: Cache, k: Key, host: Host)
    requires Orderly(c) && Absolute(k.uid)
    ensures var d := Invalidate(c, k, host);
      && Orderly(d) && SameMeaning(c, d) && Settles(c, d) && (Coherent(c) ==> Coherent(d))
      && d.whole == c.whole && d.dirty == c.dirty - {k} && d.index == c.index
    ensures k in c.dirty ==>
      var r := Invalidate(c, k, host).remote; var name := DhtKey(k.uid, k.cuid);
      && name in r.dht && r.dht[name] == host
      && host in r.hosts && k in r.hosts[host] && r.hosts[host][k] == c.whole[k]
  {
    if k in c.dirty {
      var d := Invalidate(c, k, host);
      forall other: Key | Absolute(other.uid)
        ensures Stored(d.remote, other) == if other == k then Some(c.whole[k]) else Stored(c.remote, other)
      {
        FlushStores(c.remote, host, k, c.whole[k], other);
      }
      FlushPublishes(c, k, host);
      hide Stored, OnFlush;
    }
  }

  /** Evicting a clean chunk loses nothing that lasts, and of a coherent cache nothing at all. */
  lemma PurgeIsTransparent(c: Cache, k: Key)
    requires Orderly(c) && k !in c.dirty
    ensures Orderly(Purge(c, k)) && Settles(c, Purge(c, k))
    ensures Coherent(c) ==> Coherent(Purge(c, k)) && SameMeaning(c, Purge(c, k))
  {
    hide Stored;
  }

  /** Evicting keeps every meaning exactly if the chunk is not resident or is stored with this very content. */
  lemma PurgeLosesExactly(c: Cache, k: Key)
    requires Coherent(c) && Absolute(k.uid)
    ensures SameMeaning(c, Purge(c, k)) <==> (k in c.dirty ==> Stored(c.remote, k) == Some(c.whole[k]))
  {
    if k in c.whole && Stored(c.remote, k) != Some(c.whole[k]) {
      assert Logical(c, k) != Logical(Purge(c, k), k);
    }
  }

  lemma LoadIsTransparent(c: Cache, k: Key)
    requires Orderly(c) && Absolute(k.uid)
    ensures var d := Load(c, k);
      && Orderly(d) && SameMeaning(c, d) && Settles(c, d) && (Coherent(c) ==> Coherent(d))
      && (k in d.whole <==> Logical(c, k).Some?)
      && (k in d.whole ==> Logical(c, k) == Some(d.whole[k]))
      && d.dirty == c.dirty && d.remote == c.remote && d.index == c.index
      && (forall other :: other != k ==> (other in d.whole <==> other in c.whole))
  {
    hide Stored;
  }

  lemma {:induction false} InvalidateAllIsTransparent(c: Cache, keys: seq<Key>, at: Placement)
    requires Orderly(c) && forall k :: k in keys ==> Absolute(k.uid)
    ensures var d := InvalidateAll(c, keys, at);
      && Orderly(d) && SameMeaning(c, d) && Settles(c, d) && (Coherent(c) ==> Coherent(d))
      && d.whole == c.whole && d.index == c.index && d.dirty == c.dirty - (set k | k in keys)
    decreases |keys|
  {
    hide Coherent, Orderly, SameMeaning, Settles;
    SettlesTwice(c, c, c);
    if keys != [] {
      var next := Invalidate(c, keys[0], at(keys[0]));
      InvalidateIsTransparent(c, keys[0], at(keys[0]));
      InvalidateAllIsTransparent(next, keys[1..], at);
      SettlesTwice(c, next, InvalidateAll(next, keys[1..], at));
    }
  }

  lemma {:induction false} PurgeAllIsTransparent(c: Cache, keys: seq<Key>)
    requires Orderly(c) && forall k :: k in keys ==> k !in c.dirty
    ensures var d := PurgeAll(c, keys);
      && Orderly(d) && Settles(c, d) && (Coherent(c) ==> Coherent(d))
      && d.dirty == c.dirty && d.whole == c.whole - (set k | k in keys)
    decreases |keys|
  {
    hide Coherent, Orderly, SameMeaning, Settles;
    SettlesTwice(c, c, c);
    if keys != [] {
      var next := Purge(c, keys[0]);
      PurgeIsTransparent(c, keys[0]);
      PurgeAllIsTransparent(next, keys[1..]);
      SettlesTwice(c, next, PurgeAll(next, keys[1..]));
      assert (set k | k in keys) == {keys[0]} + (set k | k in keys[1..]);
    }
  }

  lemma SettlesTwice(a: Cache, b: Cache, c: Cache)
    ensures SameMeaning(a, b) && SameMeaning(b, c) ==> SameMeaning(a, c)
    ensures Settles(a, b) && Settles(b, c) ==> Settles(a, c)
    ensures SameMeaning(a, a) && Settles(a, a)
  {
    hide Logical, Lasting;
  }

  /**
   dht_task loses nothing that lasts, and from a coherent cache changes no content;
   afterwards no chunk of the file is dirty and no recorded one resident.
   */
  lemma FlushAndEvictIsTransparent(c: Cache, uid: string, keys: seq<Key>, at: Placement)
    requires Orderly(c) && Absolute(uid) && Lists(keys, c, uid)
    ensures var d := FlushAndEvict(c, keys, at);
      && Orderly(d) && Settles(c, d) && (Coherent(c) ==> Coherent(d) && SameMeaning(c, d))
      && (forall k :: k in d.dirty ==> k.uid != uid)
      && (forall k: Key :: k.uid == uid && k.cuid in Recorded(c, uid) ==> k !in d.whole)
      && (forall k: Key :: k.uid != uid ==> (k in d.whole <==> k in c.whole) && (k in d.dirty <==> k in c.dirty))
  {
    InvalidateAllIsTransparent(c, keys, at);
    var mid := InvalidateAll(c, keys, at);
    PurgeAllIsTransparent(mid, keys);
    SettlesTwice(c, mid, PurgeAll(mid, keys));
    forall k | k in mid.dirty
      ensures k.uid != uid
    {
      assert k in c.dirty && k !in keys;
    }
    hide Settles, SameMeaning, Logical, Lasting;
    if Coherent(c) {
      CoherentMeansLasting(c, PurgeAll(mid, keys));
    }
  }

  /** Flushing the whole cache leaves every resident chunk clean and changes no content. */
  lemma FlushAllIsTransparent(c: Cache, keys: seq<Key>, at: Placement)
    requires Orderly(c) && forall k :: k in keys <==> k in c.dirty
    ensures var d := InvalidateAll(c, keys, at);
      && Orderly(d) && SameMeaning(c, d) && Settles(c, d) && (Coherent(c) ==> Coherent(d))
      && d.whole == c.whole && d.dirty == {}
  {
    InvalidateAllIsTransparent(c, keys, at);
  }

  /** Dropping the whole cache when nothing is dirty leaves exactly what lasts. */
  lemma DropIsTransparent(c: Cache)
    requires Orderly(c) && c.dirty == {}
    ensures var d := c.(whole := map[], dirty := {});
      Orderly(d) && Settles(c, d) && forall k :: Logical(d, k) == Lasting(c, k)
  {
    hide Stored;
  }

  // ---------- writes ----------

  /** The write starts from the chunk's content only if it is resident; otherwise from nothing. */
  lemma StoreKeepsCoherent(c: Cache, k: Key, start: nat, data: Bytes)
    requires Orderly(c) && Absolute(k.uid)
    ensures var d := Store(c, k, start, data);
      && Orderly(d) && (Coherent(c) ==> Coherent(d))
      && Logical(d, k) == Lasting(d, k) == Some(WriteToChunk(Get(c.whole, k), start, data))
      && k in d.whole && k in d.dirty && k.cuid in Recorded(d, k.uid)
      && (forall other: Key :: other != k ==>
            && Logical(d, other) == Logical(c, other) && Lasting(d, other) == Lasting(c, other)
            && (other in d.whole <==> other in c.whole) && (other in d.dirty <==> other in c.dirty)
            && (other.cuid in Recorded(d, other.uid) <==> other.cuid in Recorded(c, other.uid)))
  {
    hide WriteToChunk, Get, Stored;
    assert forall uid :: Recorded(c, uid) <= Recorded(Store(c, k, start, data), uid);
  }

  predicate CoversAllButZeros(prior: Bytes, start: nat, data: Bytes) {
    && |prior| <= start + |data|
    && forall i :: 0 <= i < |prior| && i < start ==> prior[i] == 0
  }

  lemma BlankLooksLike(prior: Bytes, start: nat, data: Bytes)
    ensures WriteToChunk([], start, data) == WriteToChunk(prior, start, data) <==> CoversAllButZeros(prior, start, data)
  {
    var blank, full := WriteToChunk([], start, data), WriteToChunk(prior, start, data);
    assert forall i :: 0 <= i < start ==> blank[i] == 0 by {
      assert Resized([], start + |data|)[..start] == blank[..start];
    }
    if CoversAllButZeros(prior, start, data) {
      forall i | 0 <= i < |full|
        ensures blank[i] == full[i]
      {
        if i >= start {
          assert blank[start + (i - start)] == data[i - start] == full[start + (i - start)];
        } else if i >= |prior| {
          assert full[..start] == Resized(prior, start + |data|)[..start];
        }
      }
    } else if |prior| <= start + |data| {
      var i :| 0 <= i < |prior| && i < start && prior[i] != 0;
      assert full[i] == prior[i];
    }
  }

  /**
   A write through the cache updates the chunk's content exactly if the chunk is
   resident, or nowhere stored, or overwritten up to leading zeros: a miss does
   not read the store.
   */
  lemma StoreUpdatesExactly(c: Cache, k: Key, start: nat, data: Bytes)
    requires Coherent(c) && Absolute(k.uid)
    ensures var before := if Logical(c, k).Some? then Logical(c, k).value else [];
      Logical(Store(c, k, start, data), k) == Some(WriteToChunk(before, start, data))
      <==> k in c.whole || Stored(c.remote, k).None? || CoversAllButZeros(before, start, data)
  {
    if k !in c.whole && Stored(c.remote, k).Some? {
      BlankLooksLike(Stored(c.remote, k).value, start, data);
    }
  }

  /** What `truncate` does to the chunk it got from operator(): it resizes it, without marking it dirty. */
  function Truncated(c: Cache, k: Key, size: nat): Cache
    requires k in c.whole
  {
    c.(whole := c.whole[k := Resized(c.whole[k], size)])
  }

  /** Flushing and then evicting one chunk. */
  function FlushedAndEvicted(c: Cache, k: Key, host: Host): Cache { Purge(Invalidate(c, k, host), k) }

  lemma SameSizeStays(chunk: Bytes, size: nat)
    ensures Resized(chunk, size) == chunk <==> |chunk| == size
  {
  }

  /**
   What a reader sees of a truncated chunk: the new length as long as it is
   resident, and after flush and eviction again the stored chunk, at its old
   length, unless the chunk was dirty anyway or kept its size.
   */
  lemma TruncateSurvivesEvictionExactly(c: Cache, k: Key, size: nat, host: Host)
    requires Coherent(c) && k in c.whole
    ensures var d := Truncated(c, k, size); var e := FlushedAndEvicted(d, k, host);
      && Logical(d, k) == Some(Resized(c.whole[k], size))
      && Logical(e, k) == (if k in c.dirty then Logical(d, k) else Logical(c, k))
      && (Logical(e, k) == Logical(d, k) <==> k in c.dirty || |c.whole[k]| == size)
      && forall other: Key :: Absolute(other.uid) && other != k ==> Logical(e, other) == Logical(c, other)
  {
    hide Stored, Resized, OnFlush;
    var d := Truncated(c, k, size);
    InvalidateIsTransparent(d, k, host);
    PurgeIsTransparent(Invalidate(d, k, host), k);
    SameSizeStays(c.whole[k], size);
    CoherentMeansLasting(c, c);
    hide Coherent, Orderly;
    assert Lasting(FlushedAndEvicted(d, k, host), k) == Lasting(d, k);
  }

  // ---------- whole runs: the cache in front of the chunk map ----------

  datatype Event =
    | Loads(k: Key)
    | Stores(k: Key, start: nat, data: Bytes)
    | Flushes(k: Key, host: Host)
    | FlushesAll(keys: seq<Key>, at: Placement)
    | DhtTask(uid: string, keys: seq<Key>, at: Placement)

  /**
   A write needs its chunk resident, or nowhere stored, or overwritten up to
   leading zeros; the lists are what the loops go through.
   */
  ghost predicate MayHappen(c: Cache, e: Event) {
    match e
    case Loads(k) => Absolute(k.uid)
    case Stores(k, start, data) =>
      && Absolute(k.uid)
      && (k in c.whole || Stored(c.remote, k).None? || CoversAllButZeros(Stored(c.remote, k).value, start, data))
    case Flushes(k, _) => Absolute(k.uid)
    case FlushesAll(keys, _) => forall k :: k in keys <==> k in c.dirty
    case DhtTask(uid, keys, _) => Absolute(uid) && Lists(keys, c, uid)
  }

  function After(c: Cache, e: Event): Cache {
    match e
    case Loads(k) => Load(c, k)
    case Stores(k, start, data) => Store(c, k, start, data)
    case Flushes(k, host) => Invalidate(c, k, host)
    case FlushesAll(keys, at) => InvalidateAll(c, keys, at)
    case DhtTask(_, keys, at) => FlushAndEvict(c, keys, at)
  }

  /** What the event means for the chunks: only writes change anything. */
  function ChunksAfter(m: Chunks, e: Event): Chunks {
    match e
    case Stores(k, start, data) => m[k := WriteToChunk(Get(m, k), start, data)]
    case _ => m
  }

  ghost predicate Agrees(c: Cache, m: Chunks) {
    forall k: Key :: Absolute(k.uid) ==> Logical(c, k) == if k in m then Some(m[k]) else None
  }

  lemma StepIsTransparent(c: Cache, m: Chunks, e: Event)
    requires Coherent(c) && Agrees(c, m) && MayHappen(c, e)
    ensures Coherent(After(c, e)) && Agrees(After(c, e), ChunksAfter(m, e))
  {
    hide WriteToChunk, CoversAllButZeros;
    match e
    case Loads(k) => LoadIsTransparent(c, k);
    case Stores(k, start, data) =>
      StoreKeepsCoherent(c, k, start, data);
      StoreUpdatesExactly(c, k, start, data);
    case Flushes(k, host) => InvalidateIsTransparent(c, k, host);
    case FlushesAll(keys, at) => FlushAllIsTransparent(c, keys, at);
    case DhtTask(uid, keys, at) => FlushAndEvictIsTransparent(c, uid, keys, at);
  }

  ghost predicate AllMayHappen(c: Cache, events: seq<Event>)
    decreases |events|
  {
    events != [] ==> MayHappen(c, events[0]) && AllMayHappen(After(c, events[0]), events[1..])
  }

  function RunCache(c: Cache, events: seq<Event>): Cache
    decreases |events|
  {
    if events == [] then c else RunCache(After(c, events[0]), events[1..])
  }

  function RunChunks(m: Chunks, events: seq<Event>): Chunks
    decreases |events|
  {
    if events == [] then m else RunChunks(ChunksAfter(m, events[0]), events[1..])
  }

  lemma {:induction false} RunIsTransparent(c: Cache, m: Chunks, events: seq<Event>)
    requires Coherent(c) && Agrees(c, m) && AllMayHappen(c, events)
    ensures Coherent(RunCache(c, events)) && Agrees(RunCache(c, events), RunChunks(m, events))
    decreases |events|
  {
    hide Coherent, Agrees, MayHappen, After, ChunksAfter;
    if events != [] {
      StepIsTransparent(c, m, events[0]);
      RunIsTransparent(After(c, events[0]), ChunksAfter(m, events[0]), events[1..]);
    }
  }

  /** However reads, writes, flushes and evictions interleave, every chunk reads as if there were no cache and no hosts. */
  lemma CacheIsTransparent(events: seq<Event>, k: Key)
    requires AllMayHappen(EMPTY, events) && Absolute(k.uid)
    ensures var c, m := RunCache(EMPTY, events), RunChunks(map[], events);
      && Logical(c, k) == (if k in m then Some(m[k]) else None)
      && (k in c.dirty ==> k in c.whole && k.cuid in Recorded(c, k.uid))
  {
    RunIsTransparent(EMPTY, map[], events);
  }
}
