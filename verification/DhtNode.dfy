/**
 One DHT node (internal/dht/dht.go): its local store, its routing table and the operations on them.

 Clock readings, ping outcomes and the replies of other nodes are parameters.  The effect of every
 operation on the store is given as a function on values, on which DhtNetwork.dfy builds.
 */
module DhtNode {
  import opened Common
  import opened NodeIds
  import opened Routing
  import opened RoutingInvariant
  import Lookup

  datatype Record = Record(entityId: string, name: string, category: string, tags: seq<string>, summary: string,
                           entityUrl: string, publicKey: string, homeRegistry: string, developerId: string,
                           status: string, lastHeartbeat: string, storedAt: string)

  datatype StoredRecord = StoredRecord(record: Record, storedAt: int)

  /** The local store: hexadecimal key to record. */
  type LocalStore = map<string, StoredRecord>

  datatype Message =
    | Ping(sender: NodeId, senderAddr: string)
    | Store(sender: NodeId, senderAddr: string, key: NodeId, record: Option<Record>)
    | FindNode(sender: NodeId, senderAddr: string, target: NodeId)
    | FindValue(sender: NodeId, senderAddr: string, key: NodeId)
    | Other(sender: NodeId, senderAddr: string)

  datatype ReplyMessage =
    | PingReply(ok: bool)
    | StoreReply
    | FindNodeReply(nodes: seq<NodeContact>)
    | FindValueReply(nodes: seq<NodeContact>, value: Option<Record>)

  // ---------------------------------------------------------------------------------------------
  // The store as a value
  // ---------------------------------------------------------------------------------------------

  function Put(s: LocalStore, key: NodeId, r: Record, now: int): LocalStore {
    s[Hex(key) := StoredRecord(r, now)]
  }

  function Get(s: LocalStore, key: NodeId): Option<Record> {
    if Hex(key) in s then Some(s[Hex(key)].record) else None
  }

  function Unexpired(s: LocalStore, cutoff: int): LocalStore {
    map h | h in s && s[h].storedAt >= cutoff :: s[h]
  }

  /** What handling a message does to the store. */
  function StoreAfter(s: LocalStore, m: Message, now: int): LocalStore {
    if m.Store? && m.record.Some? then Put(s, m.key, m.record.value, now) else s
  }

  /** The record, if any, that the reply to a message carries. */
  function ReplyValue(s: LocalStore, m: Message): Option<Record> {
    if m.FindValue? then Get(s, m.key) else None
  }

  /** A key reads back what was last put under it, and a put disturbs no other key. */
  lemma PutGet(s: LocalStore, key: NodeId, r: Record, now: int, other: NodeId)
    ensures Get(Put(s, key, r, now), other) == if other == key then Some(r) else Get(s, other)
  {
    HexInjective(key, other);
  }

  lemma UnexpiredGet(s: LocalStore, cutoff: int, key: NodeId)
    ensures Get(Unexpired(s, cutoff), key)
            == if Hex(key) in s && s[Hex(key)].storedAt < cutoff then None else Get(s, key)
  {}

  // ---------------------------------------------------------------------------------------------
  // The node
  // ---------------------------------------------------------------------------------------------

  /** A node lookup: where it started, what it asked and heard, its last candidates and its answer. */
  datatype LookupRun = LookupRun(seeds: seq<NodeContact>, transcript: Lookup.Transcript<Record>,
                                 candidates: seq<NodeContact>, found: seq<NodeContact>)

  /** The lookup started from the alpha contacts of the table nearest to the target and kept all its promises. */
  ghost predicate IsLookup(t: Table, self: NodeId, k: nat, alpha: nat, target: NodeId,
                           arrivals: (nat, nat) -> Lookup.Arrival<Record>, run: LookupRun) {
    var learned := Lookup.Learned(run.seeds, run.transcript, self);
    && IsClosest(Flatten(t), target, alpha, run.seeds)
    && Lookup.Records(run.transcript, arrivals, false)
    && Lookup.GoodRounds(run.transcript, self, alpha) && Lookup.Greedy(run.seeds, run.transcript, self, target)
    && Lookup.AsksInOrder(run.seeds, run.transcript, self, target, k, alpha)
    && Lookup.Wide(run.seeds, run.transcript, self, target, k, alpha) && Lookup.AlwaysNews(run.transcript, self)
    && (run.seeds != [] ==> Lookup.Ended(run.seeds, run.transcript, self, target, k, alpha))
    && |run.found| <= k && StrictlyAscending(run.found, target)
    && (forall c :: c in run.found ==> c.id != self && c in learned)
    && (forall c :: c in learned ==> run.found != [] && Dist(run.found[0].id, target) <= Dist(c.id, target))
    && (run.seeds != [] ==> Lookup.CandidatesAre(run.seeds, run.transcript, self, target, k, run.candidates))
    && Lookup.NearestOf(run.candidates, target, k, run.found)
    && (Lookup.CutShort(run.transcript) || Lookup.NoNews(run.transcript, self)
        || Lookup.AllAsked(run.transcript, run.found))
    && (!Lookup.CutShort(run.transcript) ==>
          && Lookup.NothingNearerLost(learned, run.candidates, target, k)
          && Lookup.SameIds(Lookup.Offers(run.seeds, run.transcript, self), learned)
          && Lookup.FoundExactly(Lookup.Offers(run.seeds, run.transcript, self), target, k, run.found))
  }

  /** A value lookup from the alpha contacts of the table nearest to the key: what it asked, heard and returned. */
  ghost predicate IsValueLookup(t: Table, self: NodeId, k: nat, alpha: nat, key: NodeId,
                                arrivals: (nat, nat) -> Lookup.Arrival<Record>, seeds: seq<NodeContact>,
                                tr: Lookup.Transcript<Record>, r: Option<Record>) {
    && IsClosest(Flatten(t), key, alpha, seeds)
    && Lookup.Records(tr, arrivals, true)
    && Lookup.GoodRounds(tr, self, alpha) && Lookup.Greedy(seeds, tr, self, key)
    && Lookup.AsksInOrder(seeds, tr, self, key, k, alpha)
    && Lookup.Wide(seeds, tr, self, key, k, alpha) && Lookup.AlwaysNews(tr, self)
    && (if r.None? then Lookup.NoValueIn(tr) else Lookup.EndsWithFirstValue(tr, r.value))
    && (r.None? && seeds != [] ==> Lookup.Ended(seeds, tr, self, key, k, alpha))
  }

  ghost predicate AreLookups(t: Table, self: NodeId, k: nat, alpha: nat,
                             arrivals: string -> ((nat, nat) -> Lookup.Arrival<Record>), runs: map<string, LookupRun>) {
    forall h {:trigger IsLookup(t, self, k, alpha, KeyFromHex(h), arrivals(h), runs[h])} ::
      h in runs ==> IsLookup(t, self, k, alpha, KeyFromHex(h), arrivals(h), runs[h])
  }

  /** A STORE request on its way to a contact's address. */
  datatype Outgoing = Outgoing(address: string, message: Message)

  class Dht {
    const selfId: NodeId
    const selfAddr: string
    const k: nat
    const alpha: nat
    const expireAfter: int
    const routingTable: RoutingTable
    var store: LocalStore
    ghost var clock: int

    ghost predicate Valid()
      reads this, routingTable, routingTable.buckets
    {
      && k >= 1 && alpha >= 1
      && routingTable.Valid() && routingTable.selfId == selfId && routingTable.k == k
      && TableInv(selfId, k, routingTable.table, clock)
    }

    constructor (selfId: NodeId, selfAddr: string, k: nat, alpha: nat, expireAfter: int)
      requires k >= 1 && alpha >= 1
      ensures Valid() && this.selfId == selfId && this.k == k && this.alpha == alpha
      ensures this.selfAddr == selfAddr && this.expireAfter == expireAfter
      ensures store == map[] && routingTable.table == EmptyTable()
      ensures fresh(routingTable) && fresh(routingTable.buckets)
    {
      this.selfId := selfId;
      this.selfAddr := selfAddr;
      this.k := k;
      this.alpha := alpha;
      this.expireAfter := expireAfter;
      routingTable := new RoutingTable(selfId, k);
      store := map[];
      clock := 0;
      new;
      EmptyTableInv(selfId, k, clock);
    }

    /** `AddNode`, with the outcome of pinging the eviction candidate and the two clock readings. */
    method AddNode(contact: NodeContact, alive: bool, addedAt: int, resolvedAt: int)
      requires Valid() && clock <= addedAt <= resolvedAt
      modifies this`clock, routingTable, routingTable.buckets
      ensures Valid() && clock == resolvedAt
      ensures routingTable.table == DhtAdd(selfId, k, old(routingTable.table), contact, alive, addedAt, resolvedAt)
    {
      DhtAddKeeps(selfId, k, routingTable.table, clock, contact, alive, addedAt, resolvedAt);
      var eviction := routingTable.AddNode(contact, addedAt);
      if eviction.Some? {
        if alive {
          var _ := routingTable.AddNode(eviction.value, resolvedAt);
        } else {
          var idx := BucketIndex(selfId, contact.id);
          routingTable.EvictAndReplace(idx, contact, resolvedAt);
        }
      }
      clock := resolvedAt;
    }

    method StoreLocal(key: NodeId, record: Record, now: int)
      modifies this`store
      ensures store == Put(old(store), key, record, now)
    {
      store := store[Hex(key) := StoredRecord(record, now)];
    }

    method GetLocal(key: NodeId) returns (r: Option<Record>)
      ensures r == Get(store, key)
    {
      if Hex(key) in store {
        return Some(store[Hex(key)].record);
      }
      return None;
    }

    /** `HandleMessage`: the sender is added, then the request is served from the local state. */
    method HandleMessage(m: Message, alive: bool, addedAt: int, resolvedAt: int) returns (reply: ReplyMessage)
      requires Valid() && clock <= addedAt <= resolvedAt
      modifies this, routingTable, routingTable.buckets
      ensures Valid() && clock == resolvedAt
      ensures store == StoreAfter(old(store), m, resolvedAt)
      ensures routingTable.table == DhtAdd(selfId, k, old(routingTable.table),
                                           NodeContact(m.sender, m.senderAddr, addedAt), alive, addedAt, resolvedAt)
      ensures match m
              case Ping(_, _) => reply == PingReply(true)
              case Store(_, _, _, _) => reply == StoreReply
              case FindNode(_, _, target) =>
                reply.FindNodeReply? && IsClosest(Flatten(routingTable.table), target, k, reply.nodes)
              case FindValue(_, _, key) =>
                && reply.FindValueReply? && reply.value == ReplyValue(old(store), m)
                && if reply.value.Some? then reply.nodes == []
                   else IsClosest(Flatten(routingTable.table), key, k, reply.nodes)
              case Other(_, _) => reply == PingReply(false)
    {
      AddNode(NodeContact(m.sender, m.senderAddr, addedAt), alive, addedAt, resolvedAt);
      match m
      case Ping(_, _) =>
        reply := PingReply(true);
      case Store(_, _, key, record) =>
        if record.Some? {
          StoreLocal(key, record.value, resolvedAt);
        }
        reply := StoreReply;
      case FindNode(_, _, target) =>
        var closest := Closest(target, k);
        reply := FindNodeReply(closest);
      case FindValue(_, _, key) =>
        var rec := GetLocal(key);
        if rec.Some? {
          return FindValueReply([], rec);
        }
        var closest := Closest(key, k);
        reply := FindValueReply(closest, None);
      case Other(_, _) =>
        reply := PingReply(false);
    }

    method Closest(target: NodeId, count: nat) returns (r: seq<NodeContact>)
      requires Valid()
      ensures IsClosest(Flatten(routingTable.table), target, count, r)
      ensures forall c :: c in r ==> c.id != selfId
    {
      ContactsDistinct(selfId, k, routingTable.table, clock);
      r := routingTable.FindClosest(target, count);
    }

    /** `Store`: locally, and one STORE request to each of the nodes the lookup found. */
    method StoreRecord(key: NodeId, record: Record, now: int, arrivals: (nat, nat) -> Lookup.Arrival<Record>)
      returns (sent: seq<Outgoing>, run: LookupRun)
      requires Valid()
      modifies this`store
      ensures Valid()
      ensures store == Put(old(store), key, record, now)
      ensures IsLookup(routingTable.table, selfId, k, alpha, key, arrivals, run)
      ensures |sent| == |run.found|
      ensures forall i :: 0 <= i < |sent| ==>
                sent[i] == Outgoing(run.found[i].address, Store(selfId, "", key, Some(record)))
    {
      StoreLocal(key, record, now);
      run := LookupNodes(key, arrivals);
      sent := SendToEach(run.found, Store(selfId, "", key, Some(record)));
    }

    /** `FindNode`, which `Store` and `republish` use too. */
    method LookupNodes(target: NodeId, arrivals: (nat, nat) -> Lookup.Arrival<Record>)
      returns (run: LookupRun)
      requires Valid()
      ensures IsLookup(routingTable.table, selfId, k, alpha, target, arrivals, run)
    {
      var seeds := Closest(target, alpha);
      StrictlyAscendingIsDistinct(seeds, target);
      var found, transcript, candidates := Lookup.FindNode(seeds, selfId, target, k, alpha, arrivals);
      run := LookupRun(seeds, transcript, candidates, found);
    }

    /** `FindValue`: the local record if there is one, else the lookup's value, which is then cached. */
    method FindRecord(key: NodeId, now: int, arrivals: (nat, nat) -> Lookup.Arrival<Record>)
      returns (r: Option<Record>, seeds: seq<NodeContact>, tr: Lookup.Transcript<Record>)
      requires Valid()
      modifies this`store
      ensures Valid()
      ensures Get(old(store), key).Some? ==> r == Get(old(store), key) && tr == [] && store == old(store)
      ensures Get(old(store), key).None? ==>
                && IsValueLookup(routingTable.table, selfId, k, alpha, key, arrivals, seeds, tr, r)
                && store == if r.Some? then Put(old(store), key, r.value, now) else old(store)
    {
      seeds, tr := [], [];
      r := GetLocal(key);
      if r.None? {
        r, seeds, tr := LookupValue(key, arrivals);
        if r.Some? {
          StoreLocal(key, r.value, now);
        }
      }
    }

    method LookupValue(key: NodeId, arrivals: (nat, nat) -> Lookup.Arrival<Record>)
      returns (r: Option<Record>, seeds: seq<NodeContact>, tr: Lookup.Transcript<Record>)
      requires Valid()
      ensures IsValueLookup(routingTable.table, selfId, k, alpha, key, arrivals, seeds, tr, r)
    {
      seeds := Closest(key, alpha);
      r, tr := Lookup.FindValue(seeds, selfId, key, k, alpha, arrivals);
    }

    /** `expire`: delete, entry by entry, what was stored before the cutoff. */
    method Expire(now: int)
      modifies this`store
      ensures store == Unexpired(old(store), now - expireAfter)
    {
      var cutoff := now - expireAfter;
      var keys := store.Keys;
      while keys != {}
        invariant keys <= old(store).Keys
        invariant forall h :: h in store ==> h in old(store) && store[h] == old(store)[h]
        invariant forall h :: h in keys ==> h in store
        invariant forall h :: h in old(store) && h !in keys ==> (h in store <==> old(store)[h].storedAt >= cutoff)
        decreases |keys|
      {
        var h :| h in keys;
        if store[h].storedAt < cutoff {
          store := store - {h};
        }
        keys := keys - {h};
      }
    }

    /**
     `republish`: every stored record is sent, under the key its hexadecimal form decodes to, to the
     nodes the lookup of that key finds.  The lookup for the entry h is answered by `arrivals(h)`.
     */
    method Republish(arrivals: string -> ((nat, nat) -> Lookup.Arrival<Record>))
      returns (sent: seq<Outgoing>, runs: map<string, LookupRun>)
      requires Valid()
      ensures runs.Keys == store.Keys
      ensures AreLookups(routingTable.table, selfId, k, alpha, arrivals, runs)
      ensures SentExactly(store, selfId, runs, sent)
    {
      sent, runs := [], map[];
      var keys := store.Keys;
      while keys != {}
        invariant keys <= store.Keys && runs.Keys == store.Keys - keys
        invariant AreLookups(routingTable.table, selfId, k, alpha, arrivals, runs)
        invariant SentExactly(store, selfId, runs, sent)
        decreases |keys|
      {
        var h :| h in keys;
        sent, runs := RepublishOne(h, arrivals, sent, runs);
        keys := keys - {h};
      }
    }

    method RepublishOne(h: string, arrivals: string -> ((nat, nat) -> Lookup.Arrival<Record>),
                        sent: seq<Outgoing>, runs: map<string, LookupRun>)
      returns (sent': seq<Outgoing>, runs': map<string, LookupRun>)
      requires Valid() && h in store && h !in runs
      requires AreLookups(routingTable.table, selfId, k, alpha, arrivals, runs)
      requires SentExactly(store, selfId, runs, sent)
      ensures runs'.Keys == runs.Keys + {h}
      ensures AreLookups(routingTable.table, selfId, k, alpha, arrivals, runs')
      ensures SentExactly(store, selfId, runs', sent')
    {
      var key := KeyFromHex(h);
      var run := LookupNodes(key, arrivals(h));
      var out := SendToEach(run.found, Store(selfId, "", key, Some(store[h].record)));
      RepublishesOneMore(store, selfId, runs, h, run);
      sent', runs' := sent + out, runs[h := run];
    }
  }

  ghost predicate SentTo(contacts: seq<NodeContact>, m: Message, o: Outgoing) {
    exists c :: c in contacts && o == Outgoing(c.address, m)
  }

  /** One copy of the message to the address of every contact. */
  method SendToEach(contacts: seq<NodeContact>, m: Message) returns (sent: seq<Outgoing>)
    ensures |sent| == |contacts|
    ensures forall i :: 0 <= i < |sent| ==> sent[i] == Outgoing(contacts[i].address, m)
    ensures forall o :: o in sent <==> SentTo(contacts, m, o)
  {
    sent := [];
    for i := 0 to |contacts|
      invariant |sent| == i
      invariant forall j :: 0 <= j < i ==> sent[j] == Outgoing(contacts[j].address, m)
    {
      sent := sent + [Outgoing(contacts[i].address, m)];
    }
    forall o | SentTo(contacts, m, o)
      ensures o in sent
    {
      var c :| c in contacts && o == Outgoing(c.address, m);
      var i :| 0 <= i < |contacts| && contacts[i] == c;
      assert sent[i] == o;
    }
  }

  /** The request republishes some entry of the store to one of the nodes found for it. */
  ghost predicate Republishes(s: LocalStore, self: NodeId, runs: map<string, LookupRun>, o: Outgoing) {
    exists h :: h in s && h in runs && SentTo(runs[h].found, Store(self, "", KeyFromHex(h), Some(s[h].record)), o)
  }

  /** What was sent is what republishes an entry, and all of it. */
  ghost predicate SentExactly(s: LocalStore, self: NodeId, runs: map<string, LookupRun>, sent: seq<Outgoing>) {
    forall o {:trigger Republishes(s, self, runs, o)} :: o in sent <==> Republishes(s, self, runs, o)
  }

  lemma RepublishesOneMore(s: LocalStore, self: NodeId, runs: map<string, LookupRun>, h: string, run: LookupRun)
    requires h in s && h !in runs
    ensures forall o :: Republishes(s, self, runs[h := run], o)
              <==> || Republishes(s, self, runs, o)
                   || SentTo(run.found, Store(self, "", KeyFromHex(h), Some(s[h].record)), o)
  {}
}
