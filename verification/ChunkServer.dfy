/** A chunk server's storage: files on its disk, and the database that names them. */
module ChunkServer {
  import opened ChunkedFile
  import opened Naming

  /** `storage::file`: representation names by chunk number. */
  datatype FileEntry = FileEntry(cuidMap: map<nat, string>, numOfChunks: nat)

  const BLANK := FileEntry(map[], 0)

  datatype Retrieved = Found(data: Bytes) | Inexistent   // inexistent_file_e

  /** database_ and the files under the prefix. */
  datatype Disk = Disk(prefix: string, uidMap: map<string, FileEntry>, files: map<string, Bytes>)

  function SaveInFile(f: FileEntry, cuid: nat, representation: string): FileEntry {
    FileEntry(f.cuidMap[cuid := representation], if cuid + 1 > f.numOfChunks then cuid + 1 else f.numOfChunks)
  }

  function SaveChunk(d: Disk, uid: string, cuid: nat, representation: string): Disk {
    d.(uidMap := d.uidMap[uid := SaveInFile(if uid in d.uidMap then d.uidMap[uid] else BLANK, cuid, representation)])
  }

  /** deposit_chunk: write the file, then record its name. */
  function DepositChunk(d: Disk, k: Key, data: Bytes): Disk
    requires ProperUid(k.uid)
  {
    var representation := Representation(d.prefix, k.uid, k.cuid);
    SaveChunk(d.(files := d.files[representation := data]), k.uid, k.cuid, representation)
  }

  /** database(uid)(cuid), then the file of that name. */
  function RetrieveChunk(d: Disk, k: Key): Retrieved {
    if k.uid !in d.uidMap || k.cuid !in d.uidMap[k.uid].cuidMap then Inexistent
    else
      var representation := d.uidMap[k.uid].cuidMap[k.cuid];
      if representation in d.files then Found(d.files[representation]) else Inexistent
  }

  /** get_num_of_chunks; None stands for the exception. */
  function NumOfChunks(d: Disk, uid: string): (n: int)
    ensures n >= 0 <==> uid in d.uidMap
  {
    if uid in d.uidMap then d.uidMap[uid].numOfChunks else -1
  }

  // ---------- the reference: a map of chunks ----------

  ghost predicate NumberFits(d: Disk, m: Chunks, uid: string) {
    && (uid in d.uidMap <==> exists k: Key :: k in m && k.uid == uid)
    && (uid in d.uidMap ==> IsCount(m, uid, d.uidMap[uid].numOfChunks))
  }

  /** One more than the largest chunk number saved for the file. */
  ghost predicate IsCount(m: Chunks, uid: string, n: nat) {
    && n > 0 && Key(uid, n - 1) in m
    && forall k :: k in m && k.uid == uid ==> k.cuid < n
  }

  ghost predicate Refines(d: Disk, m: Chunks) {
    && (forall k :: k in m ==> ProperUid(k.uid) && HasChunk(d, k, m[k]))
    && (forall uid, cuid :: uid in d.uidMap && cuid in d.uidMap[uid].cuidMap ==> Key(uid, cuid) in m)
    && (forall uid :: NumberFits(d, m, uid))
    && (forall name :: name in d.files ==> NamesChunk(d, m, name))
  }

  /** A file under the prefix whose name says which chunk it holds. */
  predicate NamesChunk(d: Disk, m: Chunks, name: string)
    requires name in d.files
  {
    && d.prefix + "/" <= name
    && var chunk := ParseName(d.prefix, name);
       chunk.Some?
       && var k := Key(chunk.value.0, chunk.value.1);
          k in m && ProperUid(k.uid) && name == Representation(d.prefix, k.uid, k.cuid) && d.files[name] == m[k]
  }

  ghost predicate HasChunk(d: Disk, k: Key, data: Bytes)
    requires ProperUid(k.uid)
  {
    var name := Representation(d.prefix, k.uid, k.cuid);
    && k.uid in d.uidMap && k.cuid in d.uidMap[k.uid].cuidMap && d.uidMap[k.uid].cuidMap[k.cuid] == name
    && name in d.files && d.files[name] == data
  }

  lemma DepositKeepsOther(d: Disk, k: Key, data: Bytes, other: Key, held: Bytes)
    requires ProperUid(k.uid) && ProperUid(other.uid) && other != k && HasChunk(d, other, held)
    ensures HasChunk(DepositChunk(d, k, data), other, held)
  {
    hide Representation;
    if Representation(d.prefix, k.uid, k.cuid) == Representation(d.prefix, other.uid, other.cuid) {
      RepresentationIsInjective(d.prefix, k.uid, k.cuid, other.uid, other.cuid);
    }
  }

  lemma DepositCounts(d: Disk, m: Chunks, k: Key, data: Bytes, uid: string)
    requires NumberFits(d, m, uid) && ProperUid(k.uid)
    ensures NumberFits(DepositChunk(d, k, data), m[k := data], uid)
  {
    hide Representation;
    var after, n := DepositChunk(d, k, data), m[k := data];
    assert k in n;
    if uid == k.uid {
      var count := after.uidMap[uid].numOfChunks;
      assert Key(uid, count - 1) in n;
    } else if uid in d.uidMap {
      var j: Key :| j in m && j.uid == uid;
      assert j in n;
    }
  }

  lemma HasDeposited(d: Disk, k: Key, data: Bytes)
    requires ProperUid(k.uid)
    ensures HasChunk(DepositChunk(d, k, data), k, data)
  {
    hide Representation;
  }

  lemma FileNamesChunk(d: Disk, m: Chunks, k: Key, data: Bytes, name: string)
    requires ProperUid(k.uid) && name in DepositChunk(d, k, data).files
    requires forall other :: other in d.files ==> NamesChunk(d, m, other)
    ensures NamesChunk(DepositChunk(d, k, data), m[k := data], name)
  {
    hide ParseName, Representation, ProperUid;
    var mine := Representation(d.prefix, k.uid, k.cuid);
    RepresentationRoundTrip(d.prefix, k.uid, k.cuid);
    RepresentationIsPlaced(d.prefix, k.uid, k.cuid);
    UidIsBelowRoot(k.uid);
    if name != mine {
      assert NamesChunk(d, m, name);
    }
  }

  lemma DepositRefines(d: Disk, m: Chunks, k: Key, data: Bytes)
    requires Refines(d, m) && ProperUid(k.uid)
    ensures Refines(DepositChunk(d, k, data), m[k := data])
  {
    hide Representation, NumberFits, ParseName, ProperUid, NamesChunk, HasChunk;
    HasDeposited(d, k, data);
    var after, n := DepositChunk(d, k, data), m[k := data];
    forall name | name in after.files
      ensures NamesChunk(after, n, name)
    {
      FileNamesChunk(d, m, k, data, name);
    }
    forall other | other in n
      ensures ProperUid(other.uid) && HasChunk(after, other, n[other])
    {
      if other != k {
        DepositKeepsOther(d, k, data, other, m[other]);
      }
    }
    forall uid
      ensures NumberFits(after, n, uid)
    {
      DepositCounts(d, m, k, data, uid);
    }
  }

  lemma RetrieveRefines(d: Disk, m: Chunks, k: Key)
    requires Refines(d, m)
    ensures RetrieveChunk(d, k) == if k in m then Found(m[k]) else Inexistent
  {
    hide Representation, NumberFits;
    if k in m {
      assert HasChunk(d, k, m[k]);
    }
  }

  // ---------- whole runs ----------

  datatype Saved = Saved(k: Key, data: Bytes)

  predicate AllProper(ds: seq<Saved>) { forall i :: 0 <= i < |ds| ==> ProperUid(ds[i].k.uid) }

  function DepositAll(d: Disk, ds: seq<Saved>): Disk
    requires AllProper(ds)
  {
    if ds == [] then d
    else DepositChunk(DepositAll(d, ds[..|ds| - 1]), ds[|ds| - 1].k, ds[|ds| - 1].data)
  }

  /** The last content deposited for each chunk. */
  function LastDeposits(ds: seq<Saved>): Chunks {
    if ds == [] then map[] else LastDeposits(ds[..|ds| - 1])[ds[|ds| - 1].k := ds[|ds| - 1].data]
  }

  lemma {:induction false} RunRefines(prefix: string, ds: seq<Saved>)
    requires AllProper(ds)
    ensures Refines(DepositAll(Disk(prefix, map[], map[]), ds), LastDeposits(ds))
  {
    if ds != [] {
      RunRefines(prefix, ds[..|ds| - 1]);
      DepositRefines(DepositAll(Disk(prefix, map[], map[]), ds[..|ds| - 1]), LastDeposits(ds[..|ds| - 1]),
                     ds[|ds| - 1].k, ds[|ds| - 1].data);
    }
  }

  /** After any deposits a retrieve returns the last content deposited for that very chunk, or reports that there is none. */
  lemma RetrieveReturnsLastDeposit(prefix: string, ds: seq<Saved>, k: Key)
    requires AllProper(ds)
    ensures var d, m := DepositAll(Disk(prefix, map[], map[]), ds), LastDeposits(ds);
      && RetrieveChunk(d, k) == (if k in m then Found(m[k]) else Inexistent)
      && (k in m ==> IsCount(m, k.uid, NumOfChunks(d, k.uid)))
  {
    var d, m := DepositAll(Disk(prefix, map[], map[]), ds), LastDeposits(ds);
    RunRefines(prefix, ds);
    RetrieveRefines(d, m, k);
    assert NumberFits(d, m, k.uid);
  }

  /** Whatever was deposited, the server's files lie under its prefix, and each name says whose last content it holds. */
  lemma FilesSayWhatTheyHold(prefix: string, ds: seq<Saved>, name: string)
    requires AllProper(ds) && name in DepositAll(Disk(prefix, map[], map[]), ds).files
    ensures prefix + "/" <= name && ParseName(prefix, name).Some?
    ensures var (uid, cuid) := ParseName(prefix, name).value; var m := LastDeposits(ds);
      Key(uid, cuid) in m && DepositAll(Disk(prefix, map[], map[]), ds).files[name] == m[Key(uid, cuid)]
  {
    var d := DepositAll(Disk(prefix, map[], map[]), ds);
    RunRefines(prefix, ds);
    PrefixStays(Disk(prefix, map[], map[]), ds);
    assert NamesChunk(d, LastDeposits(ds), name);
  }

  lemma {:induction false} PrefixStays(d: Disk, ds: seq<Saved>)
    requires AllProper(ds)
    ensures DepositAll(d, ds).prefix == d.prefix
  {
    if ds != [] {
      PrefixStays(d, ds[..|ds| - 1]);
    }
  }

  // ---------- the storage object ----------

  class Storage {
    const prefix: string
    var uidMap: map<string, FileEntry>
    var files: map<string, Bytes>
    ghost var contents: Chunks

    ghost function State(): Disk
      reads this
    {
      Disk(prefix, uidMap, files)
    }

    ghost predicate Valid()
      reads this
    {
      Refines(State(), contents)
    }

    constructor (prefix: string)
      ensures Valid() && contents == map[]
    {
      this.prefix := prefix;
      uidMap, files, contents := map[], map[], map[];
    }

    method Save(uid: string, cuid: nat, representation: string)
      modifies this`uidMap
      ensures State() == SaveChunk(old(State()), uid, cuid, representation)
    {
      var entry := if uid in uidMap then uidMap[uid] else BLANK;
      var number := entry.numOfChunks;
      if cuid + 1 > number {
        number := cuid + 1;
      }
      uidMap := uidMap[uid := FileEntry(entry.cuidMap[cuid := representation], number)];
    }

    method Deposit(k: Key, data: Bytes)
      requires Valid() && ProperUid(k.uid)
      modifies this
      ensures Valid() && contents == old(contents)[k := data]
      ensures State() == DepositChunk(old(State()), k, data)
    {
      hide Refines, Representation;
      var representation := Representation(prefix, k.uid, k.cuid);
      files := files[representation := data];
      Save(k.uid, k.cuid, representation);
      contents := contents[k := data];
      DepositRefines(old(State()), old(contents), k, data);
    }

    method Retrieve(k: Key) returns (r: Retrieved)
      requires Valid()
      ensures r == if k in contents then Found(contents[k]) else Inexistent
    {
      RetrieveRefines(State(), contents, k);
      if k.uid !in uidMap || k.cuid !in uidMap[k.uid].cuidMap {
        return Inexistent;
      }
      var representation := uidMap[k.uid].cuidMap[k.cuid];
      r := if representation in files then Found(files[representation]) else Inexistent;
    }
  }
}
