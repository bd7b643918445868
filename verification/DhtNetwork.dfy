/**
 A network of DHT nodes (internal/dht/dht.go) in which messages may be lost, delayed, duplicated
 and delivered in any order.

 Requests and replies are kept in sets that only grow; a step may deliver any of them, at any node,
 any number of times or never.  A reply is kept with the request it answers.
 */
module DhtNetwork {
  import opened Common
  import opened NodeIds
  import opened Routing
  import opened DhtNode

  datatype Answered = Answered(request: Message, value: Option<Record>)

  datatype Keyed = Keyed(key: NodeId, record: Record)

  datatype Net = Net(stores: map<NodeId, LocalStore>, requests: set<Message>, replies: set<Answered>,
                     returned: set<Keyed>)

  datatype Step =
    /** A node starts, or starts again, with an empty store. */
    | Started(node: NodeId)
    /** `Store` is called. */
    | StoreCalled(node: NodeId, key: NodeId, record: Record, now: int)
    /** `FindValue` is called: answered locally, or asked of other nodes. */
    | FindCalled(node: NodeId, key: NodeId)
    /** A ping, a node lookup or any other message that is not STORE or FIND_VALUE is sent. */
    | OtherSent(message: Message)
    /** A node handles a request. */
    | Delivered(node: NodeId, message: Message, now: int)
    /** A lookup takes a value from a reply to its own request, caches it and returns it. */
    | ValueTaken(node: NodeId, key: NodeId, record: Record, now: int)
    /** An entry is republished. */
    | RepublishedEntry(node: NodeId, hexKey: string)
    | ExpiredBefore(node: NodeId, cutoff: int)

  predicate Enabled(n: Net, s: Step) {
    match s
    case Started(_) => true
    case StoreCalled(node, _, _, _) => node in n.stores
    case FindCalled(node, _) => node in n.stores
    case OtherSent(m) => !m.Store? && !m.FindValue?
    case Delivered(node, m, _) => node in n.stores && m in n.requests
    case ValueTaken(node, key, r, _) => node in n.stores && Answered(FindValue(node, "", key), Some(r)) in n.replies
    case RepublishedEntry(node, h) => node in n.stores && h in n.stores[node]
    case ExpiredBefore(node, _) => node in n.stores
  }

  function Next(n: Net, s: Step): Net
    requires Enabled(n, s)
  {
    match s
    case Started(node) => n.(stores := n.stores[node := map[]])
    case StoreCalled(node, key, r, now) =>
      n.(stores := n.stores[node := Put(n.stores[node], key, r, now)],
         requests := n.requests + {Store(node, "", key, Some(r))})
    case FindCalled(node, key) =>
      (match Get(n.stores[node], key)
       case Some(r) => n.(returned := n.returned + {Keyed(key, r)})
       case None => n.(requests := n.requests + {FindValue(node, "", key)}))
    case OtherSent(m) => n.(requests := n.requests + {m})
    case Delivered(node, m, now) =>
      n.(stores := n.stores[node := StoreAfter(n.stores[node], m, now)],
         replies := n.replies + {Answered(m, ReplyValue(n.stores[node], m))})
    case ValueTaken(node, key, r, now) =>
      n.(stores := n.stores[node := Put(n.stores[node], key, r, now)],
         returned := n.returned + {Keyed(key, r)})
    case RepublishedEntry(node, h) =>
      n.(requests := n.requests + {Store(node, "", KeyFromHex(h), Some(n.stores[node][h].record))})
    case ExpiredBefore(node, cutoff) =>
      n.(stores := n.stores[node := Unexpired(n.stores[node], cutoff)])
  }

  const EMPTY_NET: Net := Net(map[], {}, {}, {})

  /** The state after a run; a step that is not enabled does nothing. */
  function Run(steps: seq<Step>): Net {
    if steps == [] then EMPTY_NET
    else
      var n := Run(steps[..|steps| - 1]);
      if Enabled(n, steps[|steps| - 1]) then Next(n, steps[|steps| - 1]) else n
  }

  /** Step i is a call of `Store` with this key and record at a node that was running. */
  predicate StoresAt(steps: seq<Step>, i: nat, key: NodeId, r: Record)
    requires i < |steps|
  {
    steps[i].StoreCalled? && steps[i].key == key && steps[i].record == r && Enabled(Run(steps[..i]), steps[i])
  }

  ghost predicate StoreWasCalled(steps: seq<Step>, key: NodeId, r: Record) {
    exists i :: 0 <= i < |steps| && StoresAt(steps, i, key, r)
  }

  lemma StillCalled(steps: seq<Step>, s: Step, key: NodeId, r: Record)
    requires StoreWasCalled(steps, key, r)
    ensures StoreWasCalled(steps + [s], key, r)
  {
    var i :| 0 <= i < |steps| && StoresAt(steps, i, key, r);
    assert (steps + [s])[i] == steps[i] && (steps + [s])[..i] == steps[..i];
    assert StoresAt(steps + [s], i, key, r);
  }

  // ---------------------------------------------------------------------------------------------
  // Provenance
  // ---------------------------------------------------------------------------------------------

  /** Every entry sits under a well-formed key with a record that was stored under that key. */
  ghost predicate StoreSound(s: LocalStore, steps: seq<Step>) {
    forall h :: h in s ==> Hex(KeyFromHex(h)) == h && StoreWasCalled(steps, KeyFromHex(h), s[h].record)
  }

  ghost predicate MessageSound(m: Message, steps: seq<Step>) {
    m.Store? && m.record.Some? ==> StoreWasCalled(steps, m.key, m.record.value)
  }

  ghost predicate AnswerSound(a: Answered, steps: seq<Step>) {
    a.value.Some? ==> a.request.FindValue? && StoreWasCalled(steps, a.request.key, a.value.value)
  }

  ghost predicate Sound(n: Net, steps: seq<Step>) {
    && (forall node :: node in n.stores ==> StoreSound(n.stores[node], steps))
    && (forall m :: m in n.requests ==> MessageSound(m, steps))
    && (forall a :: a in n.replies ==> AnswerSound(a, steps))
    && (forall e :: e in n.returned ==> StoreWasCalled(steps, e.key, e.record))
  }

  lemma StoreSoundGrows(s: LocalStore, steps: seq<Step>, step: Step)
    requires StoreSound(s, steps)
    ensures StoreSound(s, steps + [step])
  {
    forall h | h in s
      ensures StoreWasCalled(steps + [step], KeyFromHex(h), s[h].record)
    {
      StillCalled(steps, step, KeyFromHex(h), s[h].record);
    }
  }

  lemma SoundGrows(n: Net, steps: seq<Step>, step: Step)
    requires Sound(n, steps)
    ensures Sound(n, steps + [step])
  {
    forall node | node in n.stores
      ensures StoreSound(n.stores[node], steps + [step])
    {
      StoreSoundGrows(n.stores[node], steps, step);
    }
    forall m | m in n.requests && m.Store? && m.record.Some?
      ensures MessageSound(m, steps + [step])
    {
      StillCalled(steps, step, m.key, m.record.value);
    }
    forall a | a in n.replies && a.value.Some?
      ensures AnswerSound(a, steps + [step])
    {
      StillCalled(steps, step, a.request.key, a.value.value);
    }
    forall e | e in n.returned
      ensures StoreWasCalled(steps + [step], e.key, e.record)
    {
      StillCalled(steps, step, e.key, e.record);
    }
  }

  lemma PutSound(s: LocalStore, steps: seq<Step>, key: NodeId, r: Record, now: int)
    requires StoreSound(s, steps) && StoreWasCalled(steps, key, r)
    ensures StoreSound(Put(s, key, r, now), steps)
  {
    KeyFromHexUndoesHex(key);
  }

  lemma GetSound(s: LocalStore, steps: seq<Step>, key: NodeId)
    requires StoreSound(s, steps) && Get(s, key).Some?
    ensures StoreWasCalled(steps, key, Get(s, key).value)
  {
    KeyFromHexUndoesHex(key);
  }

  lemma ReplaceStoreSound(n: Net, steps: seq<Step>, node: NodeId, s: LocalStore)
    requires Sound(n, steps) && StoreSound(s, steps)
    ensures Sound(n.(stores := n.stores[node := s]), steps)
  {}

  lemma RequestSound(n: Net, steps: seq<Step>, m: Message)
    requires Sound(n, steps) && MessageSound(m, steps)
    ensures Sound(n.(requests := n.requests + {m}), steps)
  {}

  lemma ReplySound(n: Net, steps: seq<Step>, a: Answered)
    requires Sound(n, steps) && AnswerSound(a, steps)
    ensures Sound(n.(replies := n.replies + {a}), steps)
  {}

  lemma ReturnedSound(n: Net, steps: seq<Step>, e: Keyed)
    requires Sound(n, steps) && StoreWasCalled(steps, e.key, e.record)
    ensures Sound(n.(returned := n.returned + {e}), steps)
  {}

  lemma HandledSound(s: LocalStore, steps: seq<Step>, m: Message, now: int)
    requires StoreSound(s, steps) && MessageSound(m, steps)
    ensures StoreSound(StoreAfter(s, m, now), steps)
    ensures AnswerSound(Answered(m, ReplyValue(s, m)), steps)
  {
    if m.Store? && m.record.Some? {
      PutSound(s, steps, m.key, m.record.value, now);
    }
    if m.FindValue? && Get(s, m.key).Some? {
      GetSound(s, steps, m.key);
    }
  }

  /** Every step keeps soundness with respect to the run that now includes it. */
  lemma NextSound(steps: seq<Step>, s: Step)
    requires Sound(Run(steps), steps + [s]) && Enabled(Run(steps), s)
    ensures Sound(Next(Run(steps), s), steps + [s])
  {
    var n, all := Run(steps), steps + [s];
    match s
    case Started(node) =>
      ReplaceStoreSound(n, all, node, map[]);
    case StoreCalled(node, key, r, now) =>
      assert all[|steps|] == s && all[..|steps|] == steps;
      assert StoresAt(all, |steps|, key, r);
      PutSound(n.stores[node], all, key, r, now);
      RequestSound(n, all, Store(node, "", key, Some(r)));
      ReplaceStoreSound(n.(requests := n.requests + {Store(node, "", key, Some(r))}), all, node,
                        Put(n.stores[node], key, r, now));
    case FindCalled(node, key) =>
      if Get(n.stores[node], key).Some? {
        GetSound(n.stores[node], all, key);
      }
    case OtherSent(m) =>
      RequestSound(n, all, m);
    case Delivered(node, m, now) =>
      HandledSound(n.stores[node], all, m, now);
      var a := Answered(m, ReplyValue(n.stores[node], m));
      ReplySound(n, all, a);
      ReplaceStoreSound(n.(replies := n.replies + {a}), all, node, StoreAfter(n.stores[node], m, now));
    case ValueTaken(node, key, r, now) =>
      assert AnswerSound(Answered(FindValue(node, "", key), Some(r)), all);
      PutSound(n.stores[node], all, key, r, now);
      ReturnedSound(n, all, Keyed(key, r));
      ReplaceStoreSound(n.(returned := n.returned + {Keyed(key, r)}), all, node, Put(n.stores[node], key, r, now));
    case RepublishedEntry(node, h) =>
      assert StoreSound(n.stores[node], all);
      RequestSound(n, all, Store(node, "", KeyFromHex(h), Some(n.stores[node][h].record)));
    case ExpiredBefore(node, cutoff) =>
      assert StoreSound(n.stores[node], all);
      ReplaceStoreSound(n, all, node, Unexpired(n.stores[node], cutoff));
  }

  /** The state of every run is sound. */
  lemma {:induction false} EveryRunIsSound(steps: seq<Step>)
    ensures Sound(Run(steps), steps)
  {
    if steps != [] {
      var before, s := steps[..|steps| - 1], steps[|steps| - 1];
      assert steps == before + [s];
      EveryRunIsSound(before);
      SoundGrows(Run(before), before, s);
      if Enabled(Run(before), s) {
        NextSound(before, s);
      }
    }
  }

  /**
   Whatever a node reads under a key, at any time in any run, and whatever `FindValue` ever returned
   for a key, was earlier passed to `Store` with that key.
   */
  lemma NothingFromNowhere(steps: seq<Step>, node: NodeId, key: NodeId, r: Record)
    requires || (node in Run(steps).stores && Get(Run(steps).stores[node], key) == Some(r))
             || Keyed(key, r) in Run(steps).returned
    ensures StoreWasCalled(steps, key, r)
  {
    EveryRunIsSound(steps);
    if Keyed(key, r) !in Run(steps).returned {
      GetSound(Run(steps).stores[node], steps, key);
    }
  }

  // ---------------------------------------------------------------------------------------------
  // A node reads its own writes
  // ---------------------------------------------------------------------------------------------

  /** The step may replace or drop what the node holds under the key since `now`. */
  predicate Disturbs(s: Step, node: NodeId, key: NodeId, now: int) {
    match s
    case Started(m) => m == node
    case StoreCalled(m, k', _, _) => m == node && k' == key
    case FindCalled(_, _) => false
    case OtherSent(_) => false
    case Delivered(m, msg, _) => m == node && msg.Store? && msg.key == key
    case ValueTaken(m, k', _, _) => m == node && k' == key
    case RepublishedEntry(_, _) => false
    case ExpiredBefore(m, cutoff) => m == node && now < cutoff
  }

  /** The node holds this record under the key since `now`. */
  predicate Holds(n: Net, node: NodeId, key: NodeId, r: Record, now: int) {
    node in n.stores && Hex(key) in n.stores[node] && n.stores[node][Hex(key)] == StoredRecord(r, now)
  }

  lemma RunMore(steps: seq<Step>, s: Step)
    ensures Run(steps + [s]) == if Enabled(Run(steps), s) then Next(Run(steps), s) else Run(steps)
  {
    assert (steps + [s])[..|steps|] == steps;
  }

  lemma {:induction false} HeldWhileUndisturbed(steps: seq<Step>, node: NodeId, key: NodeId, r: Record, now: int,
                                                later: seq<Step>)
    requires Holds(Run(steps), node, key, r, now)
    requires forall i :: 0 <= i < |later| ==> !Disturbs(later[i], node, key, now)
    ensures Holds(Run(steps + later), node, key, r, now)
  {
    if later == [] {
      assert steps + later == steps;
    } else {
      var s, earlier := later[|later| - 1], later[..|later| - 1];
      HeldWhileUndisturbed(steps, node, key, r, now, earlier);
      assert steps + later == (steps + earlier) + [s];
      RunMore(steps + earlier, s);
      if Enabled(Run(steps + earlier), s) {
        UndisturbedStep(Run(steps + earlier), s, node, key, r, now);
      }
    }
  }

  /** Undisturbed, a stored record stays readable at the node that stored it. */
  lemma StoredStaysReadable(steps: seq<Step>, node: NodeId, key: NodeId, r: Record, now: int, later: seq<Step>)
    requires node in Run(steps).stores
    requires forall i :: 0 <= i < |later| ==> !Disturbs(later[i], node, key, now)
    ensures var n := Run(steps + [StoreCalled(node, key, r, now)] + later);
            Holds(n, node, key, r, now) && Get(n.stores[node], key) == Some(r)
  {
    RunMore(steps, StoreCalled(node, key, r, now));
    HeldWhileUndisturbed(steps + [StoreCalled(node, key, r, now)], node, key, r, now, later);
  }

  lemma UndisturbedStep(n: Net, s: Step, node: NodeId, key: NodeId, r: Record, now: int)
    requires Enabled(n, s) && !Disturbs(s, node, key, now)
    requires node in n.stores && Hex(key) in n.stores[node] && n.stores[node][Hex(key)] == StoredRecord(r, now)
    ensures node in Next(n, s).stores && Hex(key) in Next(n, s).stores[node]
    ensures Next(n, s).stores[node][Hex(key)] == StoredRecord(r, now)
  {
    match s
    case StoreCalled(_, k', _, _) => HexInjective(k', key);
    case ValueTaken(_, k', _, _) => HexInjective(k', key);
    case Delivered(_, m, _) =>
      if m.Store? {
        HexInjective(m.key, key);
      }
    case _ =>
  }

  // ---------------------------------------------------------------------------------------------
  // A record travels
  // ---------------------------------------------------------------------------------------------

  /** Messages and answers may be delivered at any later time. */
  lemma {:induction false} SentStaysSent(steps: seq<Step>, later: seq<Step>)
    ensures Run(steps).requests <= Run(steps + later).requests
    ensures Run(steps).replies <= Run(steps + later).replies
    ensures Run(steps).stores.Keys <= Run(steps + later).stores.Keys
  {
    if later == [] {
      assert steps + later == steps;
    } else {
      var s, earlier := later[|later| - 1], later[..|later| - 1];
      SentStaysSent(steps, earlier);
      assert steps + later == (steps + earlier) + [s];
      RunMore(steps + earlier, s);
    }
  }

  /** A node that handles a STORE request holds its record from then on. */
  lemma StoreIsHandled(steps: seq<Step>, node: NodeId, m: Message, now: int)
    requires node in Run(steps).stores && m in Run(steps).requests && m.Store? && m.record.Some?
    ensures Holds(Run(steps + [Delivered(node, m, now)]), node, m.key, m.record.value, now)
  {
    RunMore(steps, Delivered(node, m, now));
  }

  /** A node that holds a record under a key answers a FIND_VALUE request for that key with it. */
  lemma HolderAnswers(steps: seq<Step>, node: NodeId, m: Message, r: Record, since: int, now: int)
    requires m in Run(steps).requests && m.FindValue? && Holds(Run(steps), node, m.key, r, since)
    ensures Answered(m, Some(r)) in Run(steps + [Delivered(node, m, now)]).replies
  {
    RunMore(steps, Delivered(node, m, now));
  }

  /** A lookup that takes the value of an answer returns it and has it cached. */
  lemma TakenIsReturned(steps: seq<Step>, node: NodeId, key: NodeId, r: Record, now: int)
    requires node in Run(steps).stores && Answered(FindValue(node, "", key), Some(r)) in Run(steps).replies
    ensures var n := Run(steps + [ValueTaken(node, key, r, now)]);
            Keyed(key, r) in n.returned && Holds(n, node, key, r, now)
  {
    RunMore(steps, ValueTaken(node, key, r, now));
  }

  /** A call of `FindValue` returns the local record, or asks for the key. */
  lemma FindReturnsOrAsks(steps: seq<Step>, node: NodeId, key: NodeId)
    requires node in Run(steps).stores
    ensures var n := Run(steps + [FindCalled(node, key)]);
            match Get(Run(steps).stores[node], key)
            case Some(r) => Keyed(key, r) in n.returned
            case None => FindValue(node, "", key) in n.requests
  {
    RunMore(steps, FindCalled(node, key));
  }

  /**
   What the DHT is for.  Node a stores a record; node b handles the request and keeps the record
   undisturbed; node c, which does not have it, asks for the key and b handles that.  Then the value that c
   takes is the record, whatever else happens in the network at any time.
   */
  lemma StoredIsFound(steps: seq<Step>, a: NodeId, b: NodeId, c: NodeId, key: NodeId, r: Record,
                      storedAt: int, copiedAt: int, askedAt: int, takenAt: int,
                      s1: seq<Step>, s2: seq<Step>, s3: seq<Step>, s4: seq<Step>)
    requires a in Run(steps).stores
    requires b in Run(steps + [StoreCalled(a, key, r, storedAt)] + s1).stores
    requires var n := Run(steps + [StoreCalled(a, key, r, storedAt)] + s1
                          + [Delivered(b, Store(a, "", key, Some(r)), copiedAt)] + s2);
             c in n.stores && Get(n.stores[c], key).None?
    requires forall i :: 0 <= i < |s2| ==> !Disturbs(s2[i], b, key, copiedAt)
    requires forall i :: 0 <= i < |s3| ==> !Disturbs(s3[i], b, key, copiedAt)
    ensures var n := Run(steps + [StoreCalled(a, key, r, storedAt)] + s1
                         + [Delivered(b, Store(a, "", key, Some(r)), copiedAt)] + s2
                         + [FindCalled(c, key)] + s3
                         + [Delivered(b, FindValue(c, "", key), askedAt)] + s4
                         + [ValueTaken(c, key, r, takenAt)]);
            Keyed(key, r) in n.returned && c in n.stores && Get(n.stores[c], key) == Some(r)
  {
    var p1 := steps + [StoreCalled(a, key, r, storedAt)];
    RunMore(steps, StoreCalled(a, key, r, storedAt));
    SentStaysSent(p1, s1);
    var p2 := p1 + s1 + [Delivered(b, Store(a, "", key, Some(r)), copiedAt)];
    StoreIsHandled(p1 + s1, b, Store(a, "", key, Some(r)), copiedAt);
    HeldWhileUndisturbed(p2, b, key, r, copiedAt, s2);
    AskAndAnswer(p2 + s2, b, c, key, r, copiedAt, askedAt, takenAt, s3, s4);
  }

  lemma AskAndAnswer(steps: seq<Step>, b: NodeId, c: NodeId, key: NodeId, r: Record, since: int, askedAt: int,
                     takenAt: int, s3: seq<Step>, s4: seq<Step>)
    requires Holds(Run(steps), b, key, r, since) && c in Run(steps).stores && Get(Run(steps).stores[c], key).None?
    requires forall i :: 0 <= i < |s3| ==> !Disturbs(s3[i], b, key, since)
    ensures var n := Run(steps + [FindCalled(c, key)] + s3 + [Delivered(b, FindValue(c, "", key), askedAt)] + s4
                         + [ValueTaken(c, key, r, takenAt)]);
            Keyed(key, r) in n.returned && c in n.stores && Get(n.stores[c], key) == Some(r)
  {
    var find := FindCalled(c, key);
    FindReturnsOrAsks(steps, c, key);
    HeldWhileUndisturbed(steps, b, key, r, since, [find] + s3);
    assert steps + ([find] + s3) == steps + [find] + s3;
    SentStaysSent(steps + [find], s3);
    var p := steps + [find] + s3;
    SentStaysSent(steps, [find] + s3);
    HolderAnswers(p, b, FindValue(c, "", key), r, since, askedAt);
    var answered := p + [Delivered(b, FindValue(c, "", key), askedAt)];
    SentStaysSent(p, [Delivered(b, FindValue(c, "", key), askedAt)]);
    SentStaysSent(answered, s4);
    TakenIsReturned(answered + s4, c, key, r, takenAt);
  }

  /** A republished entry goes out under the key it was stored under. */
  lemma RepublishedUnderItsKey(steps: seq<Step>, node: NodeId, key: NodeId, r: Record, now: int)
    requires Holds(Run(steps), node, key, r, now)
    ensures Store(node, "", key, Some(r)) in Run(steps + [RepublishedEntry(node, Hex(key))]).requests
  {
    KeyFromHexUndoesHex(key);
    RunMore(steps, RepublishedEntry(node, Hex(key)));
  }
}
