/**
 The cache as objects: chunks that callers mutate through shared pointers, the
 whole map that owns them, and the dirty map that only observes them.
 */
module CacheClasses {
  import opened Wrappers
  import opened ChunkedFile
  import opened Naming
  import opened CacheMachine

  function Keys(keys: seq<Key>): set<Key> { set k | k in keys }

  lemma KeysDrop(keys: seq<Key>, i: nat)
    requires i < |keys| && forall a, b :: 0 <= a < b < |keys| ==> keys[a] != keys[b]
    ensures Keys(keys[i..]) - {keys[i]} == Keys(keys[i + 1..]) && keys[i] in Keys(keys[i..])
  {
    assert keys[i..] == [keys[i]] + keys[i + 1..];
  }

  lemma NothingLeft(c: Cache, keys: seq<Key>, at: Placement)
    requires keys == []
    ensures InvalidateAll(c, keys, at) == c && Keys(keys) == {}
  {
  }

  /** One round of either loop. */
  lemma LoopRound(c: Cache, keys: seq<Key>, i: nat, at: Placement)
    requires i < |keys|
    ensures InvalidateAll(c, keys[i..], at) == InvalidateAll(Invalidate(c, keys[i], at(keys[i])), keys[i + 1..], at)
    ensures PurgeAll(c, keys[i..]) == PurgeAll(Purge(c, keys[i]), keys[i + 1..])
  {
    assert keys[i..][0] == keys[i] && keys[i..][1..] == keys[i + 1..];
  }

  class Chunk {
    const key: Key
    var data: Bytes

    constructor (key: Key)
      ensures this.key == key && data == []
    {
      this.key := key;
      data := [];
    }
  }

  /** basic_cache: a weak pointer in `dirty` is live as long as `whole` owns the same chunk. */
  class BasicCache {
    var whole: map<Key, Chunk>
    var dirty: map<Key, Chunk>

    ghost predicate Valid()
      reads this
    {
      && (forall k :: k in whole ==> whole[k].key == k)
      && (forall k :: k in dirty ==> k in whole && dirty[k] == whole[k])
    }

    constructor ()
      ensures Valid() && whole == map[] && dirty == map[]
    {
      whole, dirty := map[], map[];
    }

    method Insert(value: Chunk)
      requires Valid() && value.key !in whole
      modifies this`whole
      ensures Valid() && whole == old(whole)[value.key := value]
    {
      whole := whole[value.key := value];
    }

    method SetDirty(key: Key)
      requires Valid() && key in whole
      modifies this`dirty
      ensures Valid() && dirty == old(dirty)[key := whole[key]]
    {
      dirty := dirty[key := whole[key]];
    }

    /** cache_miss_e is None. */
    method Read(key: Key) returns (value: Option<Chunk>)
      ensures value == if key in whole then Some(whole[key]) else None
    {
      value := if key in whole then Some(whole[key]) else None;
    }

    method ReadDirty(key: Key) returns (value: Option<Chunk>)
      requires Valid()
      ensures value == if key in dirty then Some(dirty[key]) else None
    {
      if key in dirty {
        value := Read(key);
      } else {
        value := None;
      }
    }

    method Erase(key: Key)
      requires Valid()
      modifies this
      ensures Valid() && whole == old(whole) - {key} && dirty == old(dirty) - {key}
    {
      whole := whole - {key};
      dirty := dirty - {key};
    }
  }

  /** DataOnFlush with the DHT and the chunk servers it talks to. */
  class DataOnFlush {
    var dht: map<string, Host>
    var hosts: map<Host, map<Key, Bytes>>

    ghost function Remotely(): Remote
      reads this
    {
      Remote(dht, hosts)
    }

    constructor ()
      ensures Remotely() == Remote(map[], map[])
    {
      dht, hosts := map[], map[];
    }

    /** Locates and fetches a chunk; false when the DHT or the host does not have it. */
    method PreRead(chunk: Chunk) returns (found: bool)
      modifies chunk
      ensures found <==> Stored(Remotely(), chunk.key).Some?
      ensures found ==> Some(chunk.data) == Stored(Remotely(), chunk.key)
    {
      var name := DhtKey(chunk.key.uid, chunk.key.cuid);
      if name !in dht {
        return false;
      }
      var host := dht[name];
      if host !in hosts || chunk.key !in hosts[host] {
        return false;
      }
      chunk.data := hosts[host][chunk.key];
      found := true;
    }

    method OnFlush(chunk: Chunk, host: Host)
      modifies this
      ensures Remotely() == Publish(Deposit(old(Remotely()), host, chunk.key, chunk.data), host, chunk.key)
      ensures Stored(Remotely(), chunk.key) == Some(chunk.data)
    {
      var held := if host in hosts then hosts[host] else map[];
      hosts := hosts[host := held[chunk.key := chunk.data]];
      dht := dht[DhtKey(chunk.key.uid, chunk.key.cuid) := host];
    }
  }

  /** The cache together with the index_map_ of the data aggregator. */
  class ChunkCache {
    const impl: BasicCache
    const policy: DataOnFlush
    var indexMap: map<string, set<nat>>

    ghost predicate Valid()
      reads this, impl
    {
      impl.Valid()
    }

    ghost function Resident(): map<Key, Bytes>
      reads impl`whole, impl.whole.Values
    {
      map k | k in impl.whole :: impl.whole[k].data
    }

    ghost function State(): Cache
      reads this, impl, policy, impl.whole.Values
    {
      Cache(Resident(), impl.dirty.Keys, indexMap, policy.Remotely())
    }

    constructor ()
      ensures Valid() && State() == EMPTY && fresh(impl) && fresh(policy)
    {
      impl := new BasicCache();
      policy := new DataOnFlush();
      indexMap := map[];
    }

    /** operator(): the chunk, fetched if need be. */
    method Lookup(key: Key) returns (value: Option<Chunk>)
      requires Valid()
      modifies impl
      ensures Valid() && State() == Load(old(State()), key)
      ensures value == if key in impl.whole then Some(impl.whole[key]) else None
    {
      hide Stored;
      value := impl.Read(key);
      if value.None? {
        var chunk := new Chunk(key);
        var found := policy.PreRead(chunk);
        if found {
          impl.Insert(chunk);
          assert Resident() == old(Resident())[key := chunk.data];
          value := Some(chunk);
        }
      }
    }

    /** operator[] through create_if_missing: the chunk, blank if it was not resident, and dirty. */
    method Fetch(key: Key) returns (chunk: Chunk)
      requires Valid()
      modifies this, impl
      ensures Valid() && key in impl.whole && impl.whole[key] == chunk
      ensures key in old(impl.whole) ==> impl.whole == old(impl.whole)
      ensures key !in old(impl.whole) ==> fresh(chunk) && impl.whole == old(impl.whole)[key := chunk] && chunk.data == []
      ensures impl.dirty.Keys == old(impl.dirty.Keys) + {key}
      ensures indexMap == Record(old(indexMap), key)
    {
      var value := impl.Read(key);
      match value {
        case Some(c) => chunk := c;
        case None =>
          chunk := new Chunk(key);
          impl.Insert(chunk);
      }
      impl.SetDirty(key);
      indexMap := Record(indexMap, key);
    }

    /** The caller of create_if_missing writes into the chunk it was given, in place. */
    method WriteChunk(key: Key, start: nat, data: Bytes)
      requires Valid()
      modifies this, impl, impl.whole.Values
      ensures Valid() && State() == Store(old(State()), key, start, data)
    {
      hide WriteToChunk;
      var chunk := Fetch(key);
      chunk.data := WriteToChunk(chunk.data, start, data);
      assert Resident() == old(Resident())[key := chunk.data];
    }

    method PurgeKey(key: Key)
      requires Valid()
      modifies impl
      ensures Valid() && State() == Purge(old(State()), key)
      ensures impl.whole == old(impl.whole) - {key}
    {
      impl.Erase(key);
    }

    method InvalidateKey(key: Key, host: Host)
      requires Valid()
      modifies impl`dirty, policy
      ensures Valid() && State() == Invalidate(old(State()), key, host)
    {
      var value := impl.ReadDirty(key);
      if value.Some? {
        policy.OnFlush(value.value, host);
        impl.dirty := impl.dirty - {key};
      }
    }

    /** `at` stands for the random choice of a chunk server; `keys` for the order of the dirty map. */
    method InvalidateWhole(keys: seq<Key>, at: Placement)
      requires Valid() && forall k :: k in keys <==> k in impl.dirty
      requires forall i, j :: 0 <= i < j < |keys| ==> keys[i] != keys[j]
      modifies impl`dirty, policy
      ensures Valid() && State() == InvalidateAll(old(State()), keys, at) && impl.dirty == map[]
    {
      hide InvalidateAll, Keys, Resident;
      KeysOfDirty(keys);
      ghost var all := InvalidateAll(State(), keys, at);
      assert keys[0..] == keys;
      var i := 0;
      while i < |keys|
        invariant i <= |keys| && Valid() && impl.dirty == old(impl.dirty)
        invariant InvalidateAll(State().(dirty := Keys(keys[i..])), keys[i..], at) == all
      {
        ghost var before := State().(dirty := Keys(keys[i..]));
        LoopRound(before, keys, i, at);
        KeysDrop(keys, i);
        ResidentAt(keys[i]);
        policy.OnFlush(impl.dirty[keys[i]], at(keys[i]));
        assert State().(dirty := Keys(keys[i + 1..])) == Invalidate(before, keys[i], at(keys[i]));
        i := i + 1;
      }
      NothingLeft(State().(dirty := Keys(keys[i..])), keys[i..], at);
      impl.dirty := map[];
    }

    lemma ResidentAt(k: Key)
      requires k in impl.whole
      ensures k in Resident() && Resident()[k] == impl.whole[k].data
    {
    }

    lemma KeysOfDirty(keys: seq<Key>)
      requires forall k :: k in keys <==> k in impl.dirty
      ensures State().(dirty := Keys(keys)) == State()
    {
    }

    /** dht_task on the data of one file: both loops go over what index_map_ recorded for it. */
    method DhtTask(uid: string, keys: seq<Key>, at: Placement)
      requires Valid() && Lists(keys, State(), uid)
      modifies impl, policy
      ensures Valid() && State() == FlushAndEvict(old(State()), keys, at)
      ensures old(Coherent(State())) && Absolute(uid) ==>
        Coherent(State()) && SameMeaning(old(State()), State()) && forall k :: k in impl.dirty ==> k.uid != uid
    {
      hide Orderly, SameMeaning;
      var i := 0;
      while i < |keys|
        invariant i <= |keys| && Valid() && impl.whole == old(impl.whole)
        invariant InvalidateAll(State(), keys[i..], at) == InvalidateAll(old(State()), keys, at)
      {
        LoopRound(State(), keys, i, at);
        InvalidateKey(keys[i], at(keys[i]));
        i := i + 1;
      }
      ghost var flushed := State();
      i := 0;
      while i < |keys|
        invariant i <= |keys| && Valid()
        invariant PurgeAll(State(), keys[i..]) == PurgeAll(flushed, keys)
      {
        LoopRound(State(), keys, i, at);
        PurgeKey(keys[i]);
        i := i + 1;
      }
      if old(Coherent(State())) && Absolute(uid) {
        FlushAndEvictIsTransparent(old(State()), uid, keys, at);
      }
    }
  }
}
