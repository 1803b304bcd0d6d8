/**
 The location protocol: a flush first deposits a chunk on a host and then
 publishes that host; a read first looks the host up and then fetches. All four
 are separate steps and interleave freely, also for one and the same chunk.
 */
module Location {
  import opened Wrappers
  import opened ChunkedFile
  import opened Naming
  import opened CacheMachine

  datatype Spot = Spot(host: Host, key: Key)

  /** One content of a chunk, and the host it was deposited on. */
  datatype Version = Version(host: Host, data: Bytes)

  /** A flush between its deposit and its publication. */
  datatype Flush = Flush(key: Key, host: Host, version: nat)

  /** A read between its lookup and its fetch; `since` is the version its host held when it looked. */
  datatype Reader = Reader(spot: Spot, since: nat)

  datatype Net = Net(
    remote: Remote,
    versions: map<Key, seq<Version>>, // history: every deposit of a chunk, in order
    copies: map<Spot, nat>,           // history: which version a host holds
    published: map<Key, nat>,         // history: the version of the flush that published last
    flushing: map<nat, Flush>,        // by task
    readers: map<nat, Reader>
  )

  const START := Net(Remote(map[], map[]), map[], map[], map[], map[], map[])

  function History(n: Net, k: Key): seq<Version> {
    if k in n.versions then n.versions[k] else []
  }

  datatype Event =
    | Deposits(task: nat, k: Key, host: Host, data: Bytes)
    | Publishes(task: nat)
    | Looks(reader: nat, k: Key)
    | Fetches(reader: nat)

  predicate Enabled(n: Net, e: Event) {
    match e
    case Deposits(task, k, _, _) => Absolute(k.uid) && task !in n.flushing
    case Publishes(task) => task in n.flushing
    case Looks(r, k) => Absolute(k.uid) && r !in n.readers && DhtKey(k.uid, k.cuid) in n.remote.dht
    case Fetches(r) => r in n.readers
  }

  function Apply(n: Net, e: Event): Net
    requires Enabled(n, e)
  {
    match e
    case Deposits(task, k, host, data) =>
      n.(remote := Deposit(n.remote, host, k, data),
         versions := n.versions[k := History(n, k) + [Version(host, data)]],
         copies := n.copies[Spot(host, k) := |History(n, k)|],
         flushing := n.flushing[task := Flush(k, host, |History(n, k)|)])
    case Publishes(task) =>
      var f := n.flushing[task];
      n.(remote := Publish(n.remote, f.host, f.key),
         published := n.published[f.key := f.version],
         flushing := n.flushing - {task})
    case Looks(r, k) =>
      n.(readers := n.readers[r := Reader(Spot(n.remote.dht[DhtKey(k.uid, k.cuid)], k), Visible(n, k))])
    case Fetches(r) =>
      n.(readers := n.readers - {r})
  }

  /** The version a lookup followed at once by a fetch would find. */
  function Visible(n: Net, k: Key): nat {
    var name := DhtKey(k.uid, k.cuid);
    if name in n.remote.dht && Spot(n.remote.dht[name], k) in n.copies then n.copies[Spot(n.remote.dht[name], k)] else 0
  }

  /** What the host of a spot holds there. */
  function Held(r: Remote, s: Spot): Option<Bytes> {
    if s.host in r.hosts && s.key in r.hosts[s.host] then Some(r.hosts[s.host][s.key]) else None
  }

  /** The copy at s is the last content deposited there. */
  ghost predicate CopyIsLast(n: Net, s: Spot)
    requires s in n.copies
  {
    var h := History(n, s.key);
    && Absolute(s.key.uid) && n.copies[s] < |h|
    && h[n.copies[s]].host == s.host
    && Held(n.remote, s) == Some(h[n.copies[s]].data)
    && forall i :: n.copies[s] < i < |h| ==> h[i].host != s.host
  }

  ghost predicate CopiesAreLast(n: Net) {
    forall s :: s in n.copies ==> CopyIsLast(n, s)
  }

  /** The place the DHT names for k holds the published version or a newer one. */
  ghost predicate Located(n: Net, k: Key) {
    var name := DhtKey(k.uid, k.cuid);
    && (name in n.remote.dht <==> k in n.published)
    && (k in n.published ==>
          Spot(n.remote.dht[name], k) in n.copies && n.published[k] <= n.copies[Spot(n.remote.dht[name], k)])
  }

  ghost predicate FlushesDeposited(n: Net) {
    forall t :: t in n.flushing ==>
      var f := n.flushing[t];
      Absolute(f.key.uid) && Spot(f.host, f.key) in n.copies && f.version <= n.copies[Spot(f.host, f.key)]
  }

  ghost predicate ReadersAhead(n: Net) {
    forall r :: r in n.readers ==> n.readers[r].spot in n.copies && n.readers[r].since <= n.copies[n.readers[r].spot]
  }

  ghost predicate Consistent(n: Net) {
    && CopiesAreLast(n)
    && (forall k: Key :: Absolute(k.uid) ==> Located(n, k))
    && FlushesDeposited(n)
    && ReadersAhead(n)
  }

  // ---------- every step keeps it ----------

  lemma DepositKeepsCopy(n: Net, e: Event, s: Spot)
    requires CopiesAreLast(n) && Enabled(n, e) && e.Deposits?
    requires s in Apply(n, e).copies
    ensures CopyIsLast(Apply(n, e), s)
    ensures s in n.copies ==> n.copies[s] <= Apply(n, e).copies[s]
  {
    if s in n.copies {
      assert CopyIsLast(n, s);
    }
  }

  lemma DepositGrowsCopies(n: Net, e: Event)
    requires CopiesAreLast(n) && Enabled(n, e) && e.Deposits?
    ensures CopiesGrow(n, Apply(n, e)) && CopiesAreLast(Apply(n, e))
  {
    hide History, Held;
    forall s | s in Apply(n, e).copies
      ensures CopyIsLast(Apply(n, e), s) && (s in n.copies ==> n.copies[s] <= Apply(n, e).copies[s])
    {
      DepositKeepsCopy(n, e, s);
    }
  }

  ghost predicate CopiesGrow(n: Net, m: Net) {
    forall s :: s in n.copies ==> s in m.copies && n.copies[s] <= m.copies[s]
  }

  lemma DepositKeepsFlushes(n: Net, e: Event)
    requires FlushesDeposited(n) && Enabled(n, e) && e.Deposits? && CopiesGrow(n, Apply(n, e))
    ensures FlushesDeposited(Apply(n, e))
  {
    hide Deposit, History;
  }

  lemma DepositKeepsPlaces(n: Net, e: Event, k: Key)
    requires Located(n, k) && ReadersAhead(n) && Enabled(n, e) && e.Deposits? && CopiesGrow(n, Apply(n, e))
    ensures Located(Apply(n, e), k) && ReadersAhead(Apply(n, e))
  {
    hide History, DhtKey;
  }

  lemma DepositKeepsConsistent(n: Net, e: Event)
    requires Consistent(n) && Enabled(n, e) && e.Deposits?
    ensures Consistent(Apply(n, e))
  {
    assert Absolute(e.k.uid);
    hide CopiesAreLast, CopiesGrow, FlushesDeposited, Located, ReadersAhead, Apply, Enabled;
    DepositGrowsCopies(n, e);
    DepositKeepsFlushes(n, e);
    DepositKeepsPlaces(n, e, e.k);
    forall k: Key | Absolute(k.uid)
      ensures Located(Apply(n, e), k)
    {
      DepositKeepsPlaces(n, e, k);
    }
  }

  lemma PublishKeepsLocated(n: Net, task: nat, j: Key)
    requires Consistent(n) && Enabled(n, Publishes(task)) && Absolute(j.uid)
    ensures Located(Apply(n, Publishes(task)), j)
  {
    var k := n.flushing[task].key;
    assert Located(n, j);
    if DhtKey(j.uid, j.cuid) == DhtKey(k.uid, k.cuid) {
      DhtKeyIsInjective(j.uid, j.cuid, k.uid, k.cuid);
    }
  }

  /** A step that deposits nothing leaves all copies as they are. */
  lemma CopiesStay(n: Net, e: Event)
    requires CopiesAreLast(n) && Enabled(n, e) && !e.Deposits?
    ensures CopiesAreLast(Apply(n, e))
  {
    forall s | s in n.copies
      ensures CopyIsLast(Apply(n, e), s)
    {
      assert CopyIsLast(n, s);
    }
  }

  lemma StepKeepsConsistent(n: Net, e: Event)
    requires Consistent(n) && Enabled(n, e)
    ensures Consistent(Apply(n, e))
  {
    hide CopiesAreLast;
    if e.Deposits? {
      DepositKeepsConsistent(n, e);
    } else {
      CopiesStay(n, e);
      forall k: Key | Absolute(k.uid)
        ensures Located(Apply(n, e), k)
      {
        assert Located(n, k);
        if e.Publishes? {
          PublishKeepsLocated(n, e.task, k);
        }
      }
      assert e.Looks? ==> Located(n, e.k);
    }
  }

  // ---------- whole runs ----------

  /** A path: the states the network goes through from run[0] on. */
  ghost predicate IsPath(run: seq<Net>, events: seq<Event>) {
    |run| == |events| + 1 && forall i :: 0 <= i < |events| ==> Follows(run, events, i)
  }

  ghost predicate Follows(run: seq<Net>, events: seq<Event>, i: nat)
    requires i < |events| && |run| == |events| + 1
  {
    Enabled(run[i], events[i]) && run[i + 1] == Apply(run[i], events[i])
  }

  ghost predicate IsRun(run: seq<Net>, events: seq<Event>) {
    IsPath(run, events) && run[0] == START
  }

  lemma {:induction false} PathIsConsistent(run: seq<Net>, events: seq<Event>, i: nat)
    requires IsPath(run, events) && Consistent(run[0]) && i < |run|
    ensures Consistent(run[i])
  {
    if i > 0 {
      PathIsConsistent(run, events, i - 1);
      assert Follows(run, events, i - 1);
      hide Consistent;
      StepKeepsConsistent(run[i - 1], events[i - 1]);
    }
  }

  /** Every published location holds the chunk, with the content published last or one deposited there since. */
  lemma PublishedChunksAreHeld(run: seq<Net>, events: seq<Event>, i: nat, k: Key)
    requires IsRun(run, events) && i < |run| && Absolute(k.uid)
    requires DhtKey(k.uid, k.cuid) in run[i].remote.dht
    ensures var n := run[i]; var v := Visible(n, k);
      && k in n.published && n.published[k] <= v < |History(n, k)|
      && Stored(n.remote, k) == Some(History(n, k)[v].data)
  {
    PathIsConsistent(run, events, i);
    VisibleIsHeld(run[i], k);
  }

  lemma VisibleIsHeld(n: Net, k: Key)
    requires Consistent(n) && Absolute(k.uid) && DhtKey(k.uid, k.cuid) in n.remote.dht
    ensures var v := Visible(n, k);
      && k in n.published && n.published[k] <= v < |History(n, k)|
      && Stored(n.remote, k) == Some(History(n, k)[v].data)
  {
    hide History;
    assert Located(n, k);
    assert CopyIsLast(n, Spot(n.remote.dht[DhtKey(k.uid, k.cuid)], k));
  }

  /** A read started at state i and fetching at state j. */
  ghost predicate Reads(run: seq<Net>, events: seq<Event>, i: nat, j: nat, r: nat, k: Key)
    requires |run| == |events| + 1
  {
    && i < j < |events| && events[i] == Looks(r, k) && events[j] == Fetches(r)
    && forall m :: i < m < j ==> events[m] != Fetches(r)
  }

  lemma {:induction false} ReaderIsRemembered(run: seq<Net>, events: seq<Event>, i: nat, j: nat, r: nat, k: Key, m: nat)
    requires IsPath(run, events) && Reads(run, events, i, j, r, k) && i < m <= j
    ensures r in run[m].readers && r in run[i + 1].readers && run[m].readers[r] == run[i + 1].readers[r]
    decreases m
  {
    assert Follows(run, events, m - 1);
    if m > i + 1 {
      ReaderIsRemembered(run, events, i, j, r, k, m - 1);
    }
  }

  /**
   However flushes interleave with it, also flushes of the same chunk: a read
   returns a content at least as new as the one its host held when it was looked
   up, hence at least as new as the one published then.
   */
  lemma ReadsAreNeverStale(run: seq<Net>, events: seq<Event>, i: nat, j: nat, r: nat, k: Key) returns (v: nat)
    requires IsRun(run, events) && Reads(run, events, i, j, r, k)
    ensures k in run[i].published && run[i].published[k] <= Visible(run[i], k) <= v < |History(run[j], k)|
    ensures r in run[j].readers && Held(run[j].remote, run[j].readers[r].spot) == Some(History(run[j], k)[v].data)
  {
    PathIsConsistent(run, events, i);
    PathIsConsistent(run, events, j);
    ReaderIsRemembered(run, events, i, j, r, k, j);
    LookRemembers(run, events, i, r, k);
    v := run[j].copies[run[j].readers[r].spot];
    assert CopyIsLast(run[j], run[j].readers[r].spot);
  }

  lemma LookRemembers(run: seq<Net>, events: seq<Event>, i: nat, r: nat, k: Key)
    requires IsRun(run, events) && i < |events| && events[i] == Looks(r, k) && Consistent(run[i])
    ensures k in run[i].published && run[i].published[k] <= Visible(run[i], k)
    ensures r in run[i + 1].readers
    ensures run[i + 1].readers[r].spot.key == k && run[i + 1].readers[r].since == Visible(run[i], k)
  {
    assert Follows(run, events, i);
    assert Located(run[i], k);
  }

  // ---------- when a publication moves readers back ----------

  /** This publication makes readers see an older version of the chunk than before. */
  predicate MovesBack(n: Net, task: nat)
    requires task in n.flushing
  {
    var k := n.flushing[task].key;
    DhtKey(k.uid, k.cuid) in n.remote.dht && Visible(Apply(n, Publishes(task)), k) < Visible(n, k)
  }

  /** In terms of the deposits alone: the host the DHT names received the chunk after the flush's own host last did. */
  ghost predicate NamedHostIsNewer(n: Net, f: Flush)
    requires DhtKey(f.key.uid, f.key.cuid) in n.remote.dht
  {
    var h := History(n, f.key);
    exists u :: 0 <= u < |h| && h[u].host == n.remote.dht[DhtKey(f.key.uid, f.key.cuid)]
      && forall v :: 0 <= v < |h| && h[v].host == f.host ==> v < u
  }

  /** Exactly then: a later deposit lies where the DHT points, and none as late on the flush's own host. */
  lemma MovesBackExactly(n: Net, task: nat)
    requires Consistent(n) && task in n.flushing
    ensures var f := n.flushing[task];
      MovesBack(n, task) <==> DhtKey(f.key.uid, f.key.cuid) in n.remote.dht && NamedHostIsNewer(n, f)
  {
    var f := n.flushing[task];
    var name := DhtKey(f.key.uid, f.key.cuid);
    assert Located(n, f.key);
    if name in n.remote.dht {
      var now, then' := Spot(n.remote.dht[name], f.key), Spot(f.host, f.key);
      assert CopyIsLast(n, now) && CopyIsLast(n, then');
      assert Visible(n, f.key) == n.copies[now];
      assert Visible(Apply(n, Publishes(task)), f.key) == n.copies[then'];
      if MovesBack(n, task) {
        assert History(n, f.key)[n.copies[now]].host == now.host;
      }
    }
  }

  /** Whatever the remote store: of two flushes of one chunk that both deposit first, the one that publishes last decides. */
  lemma TwoFlushesEndExactly(r: Remote, k: Key, first: Host, second: Host, older: Bytes, newer: Bytes)
    ensures var d := Deposit(Deposit(r, first, k, older), second, k, newer);
      && (Stored(Publish(Publish(d, second, k), first, k), k) == Some(newer) <==> first == second || older == newer)
      && Stored(Publish(Publish(d, first, k), second, k), k) == Some(newer)
  {
  }

  // ---------- the guard: flush a chunk only when no flush of it is under way ----------

  ghost predicate UnderWay(n: Net, k: Key) {
    exists t :: t in n.flushing && n.flushing[t].key == k
  }

  /** Every flush of k under way carries the newest version of k. */
  ghost predicate FlushesNewest(n: Net, k: Key) {
    forall t :: t in n.flushing && n.flushing[t].key == k ==> n.flushing[t].version == |History(n, k)| - 1
  }

  lemma NewestNeverMovesBack(n: Net, task: nat)
    requires Consistent(n) && task in n.flushing && FlushesNewest(n, n.flushing[task].key)
    ensures !MovesBack(n, task)
  {
    var f := n.flushing[task];
    assert Located(n, f.key);
    assert CopyIsLast(n, Spot(f.host, f.key));
    if DhtKey(f.key.uid, f.key.cuid) in n.remote.dht {
      assert CopyIsLast(n, Spot(n.remote.dht[DhtKey(f.key.uid, f.key.cuid)], f.key));
    }
    hide Consistent, CopiesAreLast, FlushesDeposited, DhtKey;
  }

  lemma NewestIsStored(n: Net, task: nat)
    requires Consistent(n) && task in n.flushing && FlushesNewest(n, n.flushing[task].key)
    ensures var k := n.flushing[task].key; var h := History(n, k);
      h != [] && Stored(Apply(n, Publishes(task)).remote, k) == Some(h[|h| - 1].data)
  {
    hide Consistent, Stored, Publish, CopyIsLast;
    var f := n.flushing[task];
    FlushIsHeld(n, task);
    NewestIsHeld(n, f);
    StoredWhenPublished(n.remote, f.host, f.key);
  }

  lemma FlushIsHeld(n: Net, task: nat)
    requires Consistent(n) && task in n.flushing
    ensures var f := n.flushing[task]; var s := Spot(f.host, f.key);
      s in n.copies && f.version <= n.copies[s] && CopyIsLast(n, s)
  {
    hide CopyIsLast;
  }

  lemma NewestIsHeld(n: Net, f: Flush)
    requires var s := Spot(f.host, f.key); s in n.copies && f.version <= n.copies[s] && CopyIsLast(n, s)
    requires f.version == |History(n, f.key)| - 1
    ensures var h := History(n, f.key); h != [] && Held(n.remote, Spot(f.host, f.key)) == Some(h[|h| - 1].data)
  {
  }

  lemma StoredWhenPublished(r: Remote, host: Host, k: Key)
    ensures Held(r, Spot(host, k)) == Stored(Publish(r, host, k), k)
  {
  }

  lemma StepKeepsNewest(n: Net, e: Event, k: Key)
    requires Enabled(n, e) && FlushesNewest(n, k)
    requires e.Deposits? && e.k == k ==> !UnderWay(n, k)
    ensures FlushesNewest(Apply(n, e), k)
  {
  }

  /** No flush of a chunk starts while another flush of it is under way. */
  ghost predicate Serial(run: seq<Net>, events: seq<Event>)
    requires |run| == |events| + 1
  {
    forall i :: 0 <= i < |events| && events[i].Deposits? ==> !UnderWay(run[i], events[i].k)
  }

  lemma {:induction false} SerialFlushesAreNewest(run: seq<Net>, events: seq<Event>, i: nat, k: Key)
    requires IsRun(run, events) && Serial(run, events) && i < |run|
    ensures FlushesNewest(run[i], k)
  {
    if i > 0 {
      SerialFlushesAreNewest(run, events, i - 1, k);
      assert Follows(run, events, i - 1);
      StepKeepsNewest(run[i - 1], events[i - 1], k);
    }
  }

  /** In a serial run no publication ever moves readers back: afterwards they see the newest content there is. */
  lemma SerialFlushesNeverRegress(run: seq<Net>, events: seq<Event>, i: nat)
    requires IsRun(run, events) && Serial(run, events) && i < |events| && events[i].Publishes?
    ensures events[i].task in run[i].flushing && !MovesBack(run[i], events[i].task)
    ensures var k := run[i].flushing[events[i].task].key; var h := History(run[i + 1], k);
      h != [] && Stored(run[i + 1].remote, k) == Some(h[|h| - 1].data)
  {
    PathIsConsistent(run, events, i);
    assert Follows(run, events, i);
    var k := run[i].flushing[events[i].task].key;
    SerialFlushesAreNewest(run, events, i, k);
    NewestNeverMovesBack(run[i], events[i].task);
    NewestIsStored(run[i], events[i].task);
    assert History(run[i + 1], k) == History(run[i], k);
  }

  /** A flush of k starts, no other one after it, and in the end a publication of k moves readers back. */
  ghost predicate Regression(run: seq<Net>, events: seq<Event>, k: Key) {
    && IsPath(run, events) && events != []
    && events[0].Deposits? && events[0].k == k
    && (forall i :: 0 < i < |events| ==> !(events[i].Deposits? && events[i].k == k))
    && var n, last := run[|events| - 1], events[|events| - 1];
       last.Publishes? && last.task in n.flushing && n.flushing[last.task].key == k && MovesBack(n, last.task)
  }

  ghost predicate MayRegress(n: Net, k: Key) {
    exists run: seq<Net>, events: seq<Event> :: Regression(run, events, k) && run[0] == n
  }

  /** Starting a flush now can end in a regression exactly if a flush of the same chunk is under way. */
  lemma FlushMayRegressExactly(n: Net, k: Key)
    requires Consistent(n) && Absolute(k.uid)
    ensures MayRegress(n, k) <==> UnderWay(n, k)
  {
    if UnderWay(n, k) {
      var task :| task in n.flushing && n.flushing[task].key == k;
      var host := n.flushing[task].host;
      var other := FreeTask(n.flushing);
      assert |host + "x"| == |host| + 1;
      var run, events := OvertakenFlush(n, task, other, host + "x", []);
      assert Regression(run, events, k) && run[0] == n;
    } else {
      forall run: seq<Net>, events: seq<Event> | Regression(run, events, k) && run[0] == n
        ensures false
      {
        LoneFlushStaysNewest(run, events, |events| - 1, k);
        PathIsConsistent(run, events, |events| - 1);
        NewestNeverMovesBack(run[|events| - 1], events[|events| - 1].task);
      }
    }
  }

  lemma {:induction false} LoneFlushStaysNewest(run: seq<Net>, events: seq<Event>, i: nat, k: Key)
    requires IsPath(run, events) && i < |run| && !UnderWay(run[0], k)
    requires forall j :: 0 < j < |events| ==> !(events[j].Deposits? && events[j].k == k)
    ensures FlushesNewest(run[i], k)
  {
    if i > 0 {
      LoneFlushStaysNewest(run, events, i - 1, k);
      assert Follows(run, events, i - 1);
      StepKeepsNewest(run[i - 1], events[i - 1], k);
    }
  }

  lemma FreeTask(flushing: map<nat, Flush>) returns (t: nat)
    ensures t !in flushing
  {
    t := 0;
    var taken := flushing.Keys;
    while t in flushing
      invariant taken <= flushing.Keys
      invariant forall u :: u in flushing ==> u < t || u in taken
      invariant forall u :: u in taken ==> u >= t
      decreases |taken|
    {
      taken := taken - {t};
      t := t + 1;
    }
  }

  /** A second flush overtakes the one under way: it deposits on another host and publishes first. */
  lemma OvertakenFlush(n: Net, task: nat, other: nat, host: Host, data: Bytes) returns (run: seq<Net>, events: seq<Event>)
    requires Consistent(n) && task in n.flushing && other !in n.flushing && host != n.flushing[task].host
    ensures IsPath(run, events) && |run| == 4 && task in run[2].flushing && MovesBack(run[2], task)
    ensures var f := n.flushing[task];
      && Regression(run, events, f.key) && run[0] == n
      && events == [Deposits(other, f.key, host, data), Publishes(other), Publishes(task)]
      && run[2].remote == Publish(Deposit(n.remote, host, f.key, data), host, f.key)
      && run[3].remote == Publish(run[2].remote, f.host, f.key)
  {
    hide Consistent, MovesBack, Apply, Enabled, Deposit, Publish, IsPath, Regression, History;
    var f := n.flushing[task];
    OvertakingDeposit(n, task, other, host, data);
    events := [Deposits(other, f.key, host, data), Publishes(other), Publishes(task)];
    var n1 := Apply(n, events[0]);
    CanPublish(n1, other);
    OvertakingPublish(n1, task, other);
    var n2 := Apply(n1, events[1]);
    var n3 := Apply(n2, events[2]);
    run := [n, n1, n2, n3];
    assert Follows(run, events, 0) && Follows(run, events, 1) && Follows(run, events, 2);
    PathOfThree(run, events);
    RegressionOfThree(run, events, f.key);
  }

  lemma CanPublish(n: Net, task: nat)
    requires task in n.flushing
    ensures Enabled(n, Publishes(task))
  {
  }

  lemma RegressionOfThree(run: seq<Net>, events: seq<Event>, k: Key)
    requires IsPath(run, events) && |run| == 4 && |events| == 3
    requires events[0].Deposits? && events[0].k == k && events[1].Publishes? && events[2].Publishes?
    requires events[2].task in run[2].flushing && run[2].flushing[events[2].task].key == k
    requires MovesBack(run[2], events[2].task)
    ensures Regression(run, events, k)
  {
    hide IsPath, MovesBack;
  }

  lemma PathOfThree(run: seq<Net>, events: seq<Event>)
    requires |run| == 4 && |events| == 3
    requires Follows(run, events, 0) && Follows(run, events, 1) && Follows(run, events, 2)
    ensures IsPath(run, events)
  {
  }

  /** A path may start one step earlier. */
  lemma Prepend(e: Event, n: Net, path: seq<Net>, more: seq<Event>) returns (run: seq<Net>)
    requires IsPath(path, more) && Enabled(n, e) && path[0] == Apply(n, e)
    ensures run == [n] + path && IsPath(run, [e] + more)
  {
    hide Apply, Enabled;
    run := [n] + path;
    forall i | 0 <= i < |[e] + more|
      ensures Follows(run, [e] + more, i)
    {
      assert i > 0 ==> Follows(path, more, i - 1);
    }
  }

  lemma OvertakingDeposit(n: Net, task: nat, other: nat, host: Host, data: Bytes)
    requires Consistent(n) && task in n.flushing && other !in n.flushing && host != n.flushing[task].host
    ensures var f := n.flushing[task]; var e := Deposits(other, f.key, host, data);
      && Enabled(n, e)
      && var m := Apply(n, e);
        && m.remote == Deposit(n.remote, host, f.key, data)
        && other in m.flushing && m.flushing[other].key == f.key && m.flushing[other].host == host
        && task in m.flushing && m.flushing[task] == f
        && Spot(host, f.key) in m.copies && Spot(f.host, f.key) in m.copies
        && m.copies[Spot(f.host, f.key)] < m.copies[Spot(host, f.key)]
  {
    assert CopyIsLast(n, Spot(n.flushing[task].host, n.flushing[task].key));
  }

  lemma OvertakingPublish(n: Net, task: nat, other: nat)
    requires task in n.flushing && other in n.flushing && task != other
    requires var f, g := n.flushing[task], n.flushing[other];
      && f.key == g.key && Spot(f.host, f.key) in n.copies && Spot(g.host, f.key) in n.copies
      && n.copies[Spot(f.host, f.key)] < n.copies[Spot(g.host, f.key)]
    ensures var f, g, m := n.flushing[task], n.flushing[other], Apply(n, Publishes(other));
      && m.remote == Publish(n.remote, g.host, g.key)
      && task in m.flushing && m.flushing[task] == f && Enabled(m, Publishes(task)) && MovesBack(m, task)
      && Apply(m, Publishes(task)).remote == Publish(m.remote, f.host, f.key)
  {
    Overtaken(Apply(n, Publishes(other)), task, n.flushing[other].host);
    hide MovesBack;
  }

  lemma Overtaken(n: Net, task: nat, host: Host)
    requires task in n.flushing
    requires var f := n.flushing[task];
      && DhtKey(f.key.uid, f.key.cuid) in n.remote.dht && n.remote.dht[DhtKey(f.key.uid, f.key.cuid)] == host
      && Spot(host, f.key) in n.copies && Spot(f.host, f.key) in n.copies
      && n.copies[Spot(f.host, f.key)] < n.copies[Spot(host, f.key)]
    ensures MovesBack(n, task)
  {
  }

  /** A run in which the flush that deposited first publishes last. */
  lemma ConcurrentFlushesCanRegress(k: Key, first: Host, second: Host, older: Bytes, newer: Bytes)
    returns (run: seq<Net>, events: seq<Event>)
    requires Absolute(k.uid) && first != second
    ensures IsRun(run, events) && |events| == 4
    ensures events[3] == Publishes(0) && 0 in run[3].flushing && MovesBack(run[3], 0)
    ensures Stored(run[3].remote, k) == Some(newer) && Stored(run[4].remote, k) == Some(older)
  {
    hide Consistent, Deposit, Publish, Stored, History, MovesBack, Apply, Enabled, Regression, IsPath;
    var e := Deposits(0, k, first, older);
    FirstDeposit(k, first, older);
    var n := Apply(START, e);
    var path, more := OvertakenFlush(n, 0, 1, second, newer);
    run := Prepend(e, START, path, more);
    events := [e] + more;
    assert IsRun(run, events) && run[3] == path[2] && run[4] == path[3];
    OvertakenContent(START.remote, k, first, second, older, newer);
  }

  lemma FirstDeposit(k: Key, host: Host, data: Bytes)
    requires Absolute(k.uid)
    ensures var e := Deposits(0, k, host, data);
      && Enabled(START, e)
      && var n := Apply(START, e);
         Consistent(n) && n.flushing == map[0 := Flush(k, host, 0)] && n.remote == Deposit(START.remote, host, k, data)
  {
    StepKeepsConsistent(START, Deposits(0, k, host, data));
  }

  lemma OvertakenContent(r: Remote, k: Key, first: Host, second: Host, older: Bytes, newer: Bytes)
    requires first != second
    ensures var d := Publish(Deposit(Deposit(r, first, k, older), second, k, newer), second, k);
      Stored(d, k) == Some(newer) && Stored(Publish(d, first, k), k) == Some(older)
  {
  }

  /**
   Not only published flushes count: a flush to the host the DHT names already
   shows its content there, so task 1 moves readers back although every flush
   that published is older than its own.
   */
  lemma UnpublishedDepositsCount(n: Net, k: Key, there: Host, mine: Bytes, newer: Bytes) returns (m: Net)
    requires Consistent(n) && n.flushing == map[] && Absolute(k.uid) && k in n.published
    requires DhtKey(k.uid, k.cuid) in n.remote.dht && there != n.remote.dht[DhtKey(k.uid, k.cuid)]
    ensures var here := n.remote.dht[DhtKey(k.uid, k.cuid)];
      m == Apply(Apply(n, Deposits(1, k, there, mine)), Deposits(2, k, here, newer))
    ensures 1 in m.flushing && MovesBack(m, 1)
    ensures k in m.published && m.published[k] < m.flushing[1].version
  {
    var here := n.remote.dht[DhtKey(k.uid, k.cuid)];
    assert Located(n, k) && CopyIsLast(n, Spot(here, k));
    hide Consistent, DhtKey, CopyIsLast;
    var n1 := Apply(n, Deposits(1, k, there, mine));
    assert |History(n1, k)| == |History(n, k)| + 1;
    m := Apply(n1, Deposits(2, k, here, newer));
    assert m.copies[Spot(there, k)] == |History(n, k)| && m.copies[Spot(here, k)] == |History(n, k)| + 1;
    assert m.flushing[1] == Flush(k, there, |History(n, k)|);
    Overtaken(m, 1, here);
  }
}
