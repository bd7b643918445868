/**
 What holds over every history of one gossip node (internal/mesh/gossip.go,
 internal/store/postgres.go): announcements handled one at a time, local broadcasts, ticks of the
 deduplication cleaner and garbage collections, in any order.
 */
module GossipHistory {
  import opened Common
  import opened Gossip

  datatype Event =
    | Received(ann: Announcement, verified: bool, db: Db, at: int)
    | Broadcast(ann: Announcement, at: int)
    | CleanerTick(at: int)
    | GarbageCollection(at: int)

  function After(h: Handler, window: int, e: Event): Handler {
    match e
    case Received(a, verified, db, at) => Handle(h, a, verified, db, at).handler
    case Broadcast(a, at) => Broadcasted(h, a, at)
    case CleanerTick(at) => Cleaned(h, window, at)
    case GarbageCollection(at) => h.(rows := Collected(h.rows, at))
  }

  function Run(h: Handler, window: int, es: seq<Event>): Handler {
    if es == [] then h else After(Run(h, window, es[..|es| - 1]), window, es[|es| - 1])
  }

  predicate InOrder(es: seq<Event>) {
    forall i, j :: 0 <= i < j < |es| ==> es[i].at <= es[j].at
  }

  // ---------------------------------------------------------------------------------------------
  // Deduplication
  // ---------------------------------------------------------------------------------------------

  /** Event i accepts an announcement with this deduplication key. */
  predicate AcceptedAt(h: Handler, window: int, es: seq<Event>, i: nat, key: string)
    requires i < |es|
  {
    && es[i].Received? && DedupKey(es[i].ann) == key
    && Accepts(Run(h, window, es[..i]), es[i].ann, es[i].verified)
  }

  /** Event i marks the key: by accepting an announcement or by a local broadcast. */
  predicate MarkedAt(h: Handler, window: int, es: seq<Event>, i: nat, key: string)
    requires i < |es|
  {
    AcceptedAt(h, window, es, i, key) || (es[i].Broadcast? && BroadcastKey(es[i].ann) == key)
  }

  /** A mark lasts, or is refreshed, until some event comes more than a window later. */
  lemma {:induction false} MarkLasts(h: Handler, window: int, es: seq<Event>, i: nat, key: string, n: nat)
    requires InOrder(es) && i < n <= |es| && MarkedAt(h, window, es, i, key)
    ensures var s := Run(h, window, es[..n]).seen;
            (key in s && s[key] >= es[i].at) || es[n - 1].at - es[i].at > window
  {
    assert es[..n][..n - 1] == es[..n - 1];
    if n > i + 1 {
      MarkLasts(h, window, es, i, key, n - 1);
      assert es[i].at <= es[n - 2].at <= es[n - 1].at;
    }
  }

  /**
   Two acceptances of one key are more than the window apart; so are a local broadcast under the
   key and a later acceptance.
   */
  lemma AcceptancesAreApart(h: Handler, window: int, es: seq<Event>, i: nat, j: nat, key: string)
    requires InOrder(es) && i < j < |es|
    requires MarkedAt(h, window, es, i, key) && AcceptedAt(h, window, es, j, key)
    ensures es[j].at - es[i].at > window
  {
    MarkLasts(h, window, es, i, key, j);
    assert es[j - 1].at <= es[j].at;
  }

  /** Mark i of the key has been outlived by no tick of the cleaner among the first n events. */
  predicate Outlives(h: Handler, window: int, es: seq<Event>, i: nat, key: string, n: nat)
    requires n <= |es|
  {
    && i < n && MarkedAt(h, window, es, i, key)
    && forall t :: i < t < n && es[t].CleanerTick? ==> es[t].at - es[i].at <= window
  }

  lemma {:induction false} OutlivingMarkIsSeen(h: Handler, window: int, es: seq<Event>, i: nat, key: string, n: nat)
    requires InOrder(es) && n <= |es| && Outlives(h, window, es, i, key, n)
    ensures var s := Run(h, window, es[..n]).seen; key in s && s[key] >= es[i].at
  {
    assert es[..n][..n - 1] == es[..n - 1];
    if n > i + 1 {
      OutlivingMarkIsSeen(h, window, es, i, key, n - 1);
      assert es[i].at <= es[n - 1].at;
    }
  }

  lemma {:induction false} SeenIsOutlivingMark(h: Handler, window: int, es: seq<Event>, key: string, n: nat)
    returns (i: nat)
    requires n <= |es| && h.seen == map[] && key in Run(h, window, es[..n]).seen
    ensures Outlives(h, window, es, i, key, n) && Run(h, window, es[..n]).seen[key] == es[i].at
  {
    assert es[..n][..n - 1] == es[..n - 1];
    if MarkedAt(h, window, es, n - 1, key) {
      i := n - 1;
    } else {
      i := SeenIsOutlivingMark(h, window, es, key, n - 1);
    }
  }

  /**
   Exactly what a node accepts: a signed and verified announcement with hops left, if every earlier mark
   of its key, by acceptance or by broadcast, was cleaned more than a window after it was made.
   */
  lemma AcceptedIff(h: Handler, window: int, es: seq<Event>, j: nat)
    requires InOrder(es) && j < |es| && es[j].Received? && h.seen == map[]
    ensures var a := es[j].ann;
            AcceptedAt(h, window, es, j, DedupKey(a))
            <==> && es[j].verified && a.signature != "" && a.originKey != "" && a.hopCount < a.maxHops
                 && forall i :: 0 <= i < j && MarkedAt(h, window, es, i, DedupKey(a)) ==>
                      exists t :: i < t < j && es[t].CleanerTick? && es[t].at - es[i].at > window
  {
    var key := DedupKey(es[j].ann);
    if key in Run(h, window, es[..j]).seen {
      var i := SeenIsOutlivingMark(h, window, es, key, j);
      assert MarkedAt(h, window, es, i, key);
    } else {
      forall i | 0 <= i < j && MarkedAt(h, window, es, i, key)
        ensures exists t :: i < t < j && es[t].CleanerTick? && es[t].at - es[i].at > window
      {
        if Outlives(h, window, es, i, key, j) {
          OutlivingMarkIsSeen(h, window, es, i, key, j);
          assert false;
        }
      }
    }
  }

  lemma KeysAgreeIff(a: Announcement)
    ensures DedupKey(a) == BroadcastKey(a) <==> DedupId(a) == a.entityId
    ensures IsAgentKind(a.kind) ==> DedupKey(a) == BroadcastKey(a)
  {
    if DedupKey(a) == BroadcastKey(a) {
      var d, e := DedupKey(a), BroadcastKey(a);
      assert |DedupId(a)| == |a.entityId|;
      assert d[..|DedupId(a)|] == DedupId(a) && e[..|a.entityId|] == a.entityId;
    }
  }

  /** An originator never accepts the echo of its own agent announcement within the window. */
  lemma OwnAgentEchoIsDropped(h: Handler, window: int, es: seq<Event>, i: nat, j: nat)
    requires InOrder(es) && i < j < |es|
    requires es[i].Broadcast? && IsAgentKind(es[i].ann.kind)
    requires es[j].Received? && DedupKey(es[j].ann) == DedupKey(es[i].ann)
    requires es[j].at - es[i].at <= window
    ensures After(Run(h, window, es[..j]), window, es[j]) == Run(h, window, es[..j])
  {
    KeysAgreeIff(es[i].ann);
    var key := DedupKey(es[i].ann);
    if AcceptedAt(h, window, es, j, key) {
      AcceptancesAreApart(h, window, es, i, j, key);
      assert false;
    }
  }

  /** For other kinds an immediate valid echo is accepted exactly when the two keys differ. */
  lemma EchoAcceptedIff(h: Handler, a: Announcement, now: int)
    requires Accepts(h, a, true)
    ensures Accepts(Broadcasted(h, a, now), a, true) <==> DedupId(a) != a.entityId
  {
    KeysAgreeIff(a);
  }

  // ---------------------------------------------------------------------------------------------
  // Rows: one event
  // ---------------------------------------------------------------------------------------------

  /** The event is the handling of an authorised announcement about this row with this action. */
  predicate Carries(h: Handler, e: Event, id: string, action: string) {
    && e.Received? && Accepts(h, e.ann, e.verified)
    && IsAgentKind(e.ann.kind) && e.ann.entityId == id && e.ann.action == action
  }

  predicate Pinned(rows: Rows, id: string, key: string) {
    id in rows && rows[id].originKey == Some(key) && key != ""
  }

  /** The key of a row never changes while the row exists. */
  lemma PinKept(h: Handler, window: int, e: Event, id: string, key: string)
    requires Pinned(h.rows, id, key) && id in After(h, window, e).rows
    ensures Pinned(After(h, window, e).rows, id, key)
  {}

  /**
   What an event may do to a row pinned to a key.  The tombstone comes only from a deregistration
   carrying the key.  The status changes only to the one announced by an `agent_status` carrying
   the key, or to "active" by a registration or by an update carrying the key.  The profile is
   rewritten only by a registration, which is not checked against the key, or by an update
   carrying the key.
   */
  predicate PinRespected(h: Handler, window: int, e: Event, id: string, key: string)
    requires id in h.rows && id in After(h, window, e).rows
  {
    var row, row' := h.rows[id], After(h, window, e).rows[id];
    && (row'.tombstoned && !row.tombstoned ==> Carries(h, e, id, "deregister") && e.ann.originKey == key)
    && (row'.status != row.status ==>
          || (Carries(h, e, id, "agent_status") && e.ann.originKey == key && row'.status == e.ann.status)
          || (Carries(h, e, id, "update") && e.ann.originKey == key && row'.status == "active")
          || (Carries(h, e, id, "register") && row'.status == "active"))
    && (row'.profile != row.profile ==>
          Carries(h, e, id, "register") || (Carries(h, e, id, "update") && e.ann.originKey == key))
  }

  lemma EventRespectsPin(h: Handler, window: int, e: Event, id: string, key: string)
    requires Pinned(h.rows, id, key) && id in After(h, window, e).rows
    ensures PinRespected(h, window, e, id, key)
  {}

  /** The row is pinned to a key other than this one. */
  predicate KeyedOtherwise(row: Row, key: string) {
    row.originKey.Some? && row.originKey.value !in {"", key}
  }

  /** The announcement gets through to the row: registrations always do, the others unless the key is wrong. */
  predicate Applies(h: Handler, e: Event, id: string, action: string) {
    && Carries(h, e, id, action) && e.db.writeOk
    && (action != "register" ==> e.db.readOk && (id in h.rows ==> !KeyedOtherwise(h.rows[id], e.ann.originKey)))
  }

  predicate Registers(h: Handler, e: Event, id: string) {
    Applies(h, e, id, "register") || Applies(h, e, id, "update")
  }

  /** The row shows the profile that was announced; the home registry is that of the first announcement. */
  predicate Shows(row: Row, p: Profile, homeRegistry: string) {
    var q := row.profile;
    && q.name == p.name && q.category == p.category && q.tags == p.tags && q.summary == p.summary
    && q.entityUrl == p.entityUrl && q.developerId == p.developerId && q.serviceEndpoint == p.serviceEndpoint
    && q.openApiUrl == p.openApiUrl && q.homeRegistry == homeRegistry
    && q.entityType == if p.entityType == "" then "agent" else p.entityType
  }

  /** What every event does to every row, column by column. */
  lemma RowChangesIff(h: Handler, window: int, e: Event, id: string)
    requires id in h.rows && id in After(h, window, e).rows
    ensures var row, row' := h.rows[id], After(h, window, e).rows[id];
            && (row'.tombstoned <==> row.tombstoned || Applies(h, e, id, "deregister"))
            && row'.tombstoneAt == (if Applies(h, e, id, "deregister") then Some(e.at) else row.tombstoneAt)
            && row'.status == (if Applies(h, e, id, "agent_status") then e.ann.status
                               else if Registers(h, e, id) then "active" else row.status)
            && row'.originKey == (if Registers(h, e, id) && row.originKey.None? then Some(e.ann.originKey)
                                  else row.originKey)
            && (if Registers(h, e, id)
                then Shows(row', e.ann.profile, row.profile.homeRegistry) && row'.receivedAt == e.at
                else row'.profile == row.profile && row'.receivedAt == row.receivedAt)
  {
    if !e.Received? || e.ann.entityId != id || !Accepts(h, e.ann, e.verified) || !IsAgentKind(e.ann.kind) {
      assert After(h, window, e).rows[id] == h.rows[id];
    }
  }

  /** A row appears exactly by a registration or an update that gets through, with what was announced. */
  lemma AppearsIff(h: Handler, window: int, e: Event, id: string)
    requires id !in h.rows
    ensures id in After(h, window, e).rows <==> Registers(h, e, id)
    ensures Registers(h, e, id) ==>
              var row := After(h, window, e).rows[id];
              Shows(row, e.ann.profile, e.ann.profile.homeRegistry) && row.receivedAt == e.at && row.tombstoneAt.None?
  {}

  /** Passed on, one hop further and otherwise as it came, is exactly what is accepted and not refused for its key. */
  lemma PassedOnIff(h: Handler, a: Announcement, verified: bool, db: Db, now: int)
    ensures var out := Handle(h, a, verified, db, now).forward;
            && (out.Some? <==>
                  && Accepts(h, a, verified)
                  && (IsAgentKind(a.kind) && a.action in {"agent_status", "deregister", "update"} ==>
                        && db.readOk && (a.action != "update" ==> a.entityId in h.rows)
                        && (a.entityId in h.rows ==> !KeyedOtherwise(h.rows[a.entityId], a.originKey))))
            && (out.Some? ==> out.value.hopCount == a.hopCount + 1 && out.value.(hopCount := a.hopCount) == a)
  {}

  /** An accepted registration rewrites the profile of an existing row, whatever key it carries. */
  lemma RegistrationRewrites(h: Handler, window: int, e: Event, id: string)
    requires id in h.rows && Carries(h, e, id, "register") && e.db.writeOk
    ensures id in After(h, window, e).rows
    ensures After(h, window, e).rows[id].profile
            == StoredProfile(e.ann.profile).(homeRegistry := h.rows[id].profile.homeRegistry)
    ensures After(h, window, e).rows[id].tombstoned == h.rows[id].tombstoned
    ensures After(h, window, e).rows[id].status == "active"
  {}

  /** A row disappears exactly by garbage collection after it was tombstoned, which touches no other row. */
  lemma DeletedIffTombstoned(h: Handler, window: int, e: Event, id: string)
    requires id in h.rows
    ensures id !in After(h, window, e).rows <==> e.GarbageCollection? && Collectable(h.rows[id], e.at)
    ensures e.GarbageCollection? && id in After(h, window, e).rows ==> After(h, window, e).rows[id] == h.rows[id]
  {}

  /** A row appears only by a registration or an update, and is then pinned to that announcement's key. */
  lemma NewRowIsPinned(h: Handler, window: int, e: Event, id: string)
    requires id !in h.rows && id in After(h, window, e).rows
    ensures Carries(h, e, id, "register") || Carries(h, e, id, "update")
    ensures Pinned(After(h, window, e).rows, id, e.ann.originKey)
    ensures !After(h, window, e).rows[id].tombstoned && After(h, window, e).rows[id].status == "active"
  {}

  // ---------------------------------------------------------------------------------------------
  // Rows: whole histories
  // ---------------------------------------------------------------------------------------------

  /** The row exists after every event of the history. */
  predicate Exists(h: Handler, window: int, es: seq<Event>, id: string) {
    id in Run(h, window, es).rows && forall n :: 0 <= n <= |es| ==> id in Run(h, window, es[..n]).rows
  }

  lemma ExistsPrefix(h: Handler, window: int, es: seq<Event>, id: string)
    requires es != [] && Exists(h, window, es, id)
    ensures Exists(h, window, es[..|es| - 1], id)
    ensures id in Run(h, window, es).rows && id in Run(h, window, es[..|es| - 1]).rows
  {
    var p := es[..|es| - 1];
    assert id in Run(h, window, es[..|es| - 1]).rows;
    forall n | 0 <= n <= |p|
      ensures id in Run(h, window, p[..n]).rows
    {
      assert p[..n] == es[..n];
    }
    assert es[..|es|] == es;
  }

  /** As long as a row exists it stays pinned to the same key. */
  lemma {:induction false} PinKeptWhileRowExists(h: Handler, window: int, es: seq<Event>, id: string, key: string)
    requires Pinned(h.rows, id, key) && Exists(h, window, es, id)
    ensures Pinned(Run(h, window, es).rows, id, key)
  {
    if es != [] {
      ExistsPrefix(h, window, es, id);
      PinKeptWhileRowExists(h, window, es[..|es| - 1], id, key);
      PinKept(Run(h, window, es[..|es| - 1]), window, es[|es| - 1], id, key);
    }
  }

  /** A tombstoned row never comes back to search before it is deleted, re-registered or not. */
  lemma {:induction false} TombstonedStaysHidden(h: Handler, window: int, es: seq<Event>, id: string,
                                                 matches: Row -> bool)
    requires id in h.rows && h.rows[id].tombstoned && Exists(h, window, es, id)
    ensures Run(h, window, es).rows[id].tombstoned
    ensures id !in Search(Run(h, window, es).rows, matches)
  {
    if es != [] {
      ExistsPrefix(h, window, es, id);
      TombstonedStaysHidden(h, window, es[..|es| - 1], id, matches);
    }
  }

  /** Deregistered with its key, a row is out of every search at once and stays out until it is deleted. */
  lemma DeregisteredIsHidden(h: Handler, window: int, e: Event, id: string, es: seq<Event>, matches: Row -> bool)
    requires id in h.rows && Applies(h, e, id, "deregister")
    requires Exists(After(h, window, e), window, es, id)
    ensures id !in Search(Run(After(h, window, e), window, es).rows, matches)
  {
    assert es[..0] == [];
    TombstonedStaysHidden(After(h, window, e), window, es, id, matches);
  }

  /** The next collection after its last deregistration deletes it. */
  lemma {:induction false} DeregisteredIsCollected(
      h: Handler, window: int, e: Event, id: string, es: seq<Event>, at: int)
    requires id in h.rows && Applies(h, e, id, "deregister")
    requires Exists(After(h, window, e), window, es, id)
    requires e.at < at && forall i :: 0 <= i < |es| ==> es[i].at < at
    ensures id !in After(Run(After(h, window, e), window, es), window, GarbageCollection(at)).rows
  {
    assert es[..0] == [];
    CollectableFrom(After(h, window, e), window, es, id, at);
  }

  lemma {:induction false} CollectableFrom(h: Handler, window: int, es: seq<Event>, id: string, at: int)
    requires id in h.rows && Collectable(h.rows[id], at) && Exists(h, window, es, id)
    requires forall i :: 0 <= i < |es| ==> es[i].at < at
    ensures Collectable(Run(h, window, es).rows[id], at)
  {
    if es != [] {
      ExistsPrefix(h, window, es, id);
      CollectableFrom(h, window, es[..|es| - 1], id, at);
    }
  }

  /** A live row stays in exactly the searches it matches until a deregistration gets through to it. */
  lemma {:induction false} LiveStaysSearchable(
      h: Handler, window: int, es: seq<Event>, id: string, matches: Row -> bool)
    requires id in h.rows && !h.rows[id].tombstoned
    requires forall i :: 0 <= i < |es| ==> !Applies(Run(h, window, es[..i]), es[i], id, "deregister")
    ensures id in Run(h, window, es).rows && !Run(h, window, es).rows[id].tombstoned
    ensures id in Search(Run(h, window, es).rows, matches) <==> matches(Run(h, window, es).rows[id])
  {
    if es != [] {
      var n := |es| - 1;
      forall i | 0 <= i < n
        ensures !Applies(Run(h, window, es[..n][..i]), es[..n][i], id, "deregister")
      {
        assert es[..n][..i] == es[..i];
      }
      LiveStaysSearchable(h, window, es[..n], id, matches);
      DeletedIffTombstoned(Run(h, window, es[..n]), window, es[n], id);
      RowChangesIff(Run(h, window, es[..n]), window, es[n], id);
    }
  }

  /** In every history, every event respects the pin of a row that was pinned when the history began. */
  lemma EveryEventRespectsPin(h: Handler, window: int, es: seq<Event>, i: nat, id: string, key: string)
    requires Pinned(h.rows, id, key) && Exists(h, window, es, id) && i < |es|
    ensures id in Run(h, window, es[..i]).rows && id in Run(h, window, es[..i + 1]).rows
    ensures Run(h, window, es[..i + 1]) == After(Run(h, window, es[..i]), window, es[i])
    ensures PinRespected(Run(h, window, es[..i]), window, es[i], id, key)
  {
    assert es[..i + 1][..i] == es[..i];
    forall n | 0 <= n <= i
      ensures id in Run(h, window, es[..i][..n]).rows
    {
      assert es[..i][..n] == es[..n];
    }
    PinKeptWhileRowExists(h, window, es[..i], id, key);
    EventRespectsPin(Run(h, window, es[..i]), window, es[i], id, key);
  }

  /** A row that was live and is tombstoned was deregistered, with its key, by some event between. */
  lemma {:induction false} TombstoneTraced(h: Handler, window: int, es: seq<Event>, id: string, key: string)
    returns (i: nat)
    requires Pinned(h.rows, id, key) && !h.rows[id].tombstoned && Exists(h, window, es, id)
    requires Run(h, window, es).rows[id].tombstoned
    ensures i < |es| && Carries(Run(h, window, es[..i]), es[i], id, "deregister") && es[i].ann.originKey == key
  {
    ExistsPrefix(h, window, es, id);
    var before := es[..|es| - 1];
    if Run(h, window, before).rows[id].tombstoned {
      i := TombstoneTraced(h, window, before, id, key);
      assert before[..i] == es[..i];
    } else {
      i := |es| - 1;
      EveryEventRespectsPin(h, window, es, i, id, key);
      assert es[..i + 1] == es;
    }
  }
}
