/**
 The gossip handler (internal/mesh/gossip.go) and the gossip rows of the store
 (internal/store/postgres.go).

 `Handle` says what one call of `HandleAnnouncement` does, on values; the class is the in-place
 code, proved to compute it.  Signature verification is a parameter; clock readings and database
 failures are inputs.
 */
module Gossip {
  import opened Common

  /** The descriptive fields that a registration carries into a row. */
  datatype Profile = Profile(name: string, category: string, tags: seq<string>, summary: string, homeRegistry: string,
                             entityUrl: string, developerId: string, entityType: string, serviceEndpoint: string,
                             openApiUrl: string)

  /** `extra` stands for every field that the handler does not read. */
  datatype Announcement = Announcement(kind: string, entityId: string, action: string, status: string,
                                       timestamp: string,
                                       originKey: string, signature: string, hopCount: int, maxHops: int,
                                       developerId: string, fqan: string, domain: string, attesterId: string,
                                       subjectId: string, profile: Profile, extra: string)

  datatype Row = Row(profile: Profile, receivedAt: int, status: string, originKey: Option<string>,
                     tombstoned: bool, tombstoneAt: Option<int>)

  type Rows = map<string, Row>

  /** Whether reads and writes reach the database. */
  datatype Db = Db(readOk: bool, writeOk: bool)

  /** key, announcement without signature, signature */
  type Verifier = (string, Announcement, string) -> bool

  // ---------------------------------------------------------------------------------------------
  // Rows (postgres.go)
  // ---------------------------------------------------------------------------------------------

  function NilIfEmpty(s: string): Option<string> {
    if s == "" then None else Some(s)
  }

  function StoredProfile(p: Profile): Profile {
    if p.entityType == "" then p.(entityType := "agent") else p
  }

  /**
   INSERT ... ON CONFLICT DO UPDATE: an existing row keeps its home registry, its tombstone and its
   origin key unless that is NULL; everything else is overwritten.
   */
  function Upsert(rows: Rows, id: string, p: Profile, key: string, receivedAt: int, status: string): Rows {
    var st := if status == "" then "inactive" else status;
    if id in rows then
      var row := rows[id];
      rows[id := Row(StoredProfile(p).(homeRegistry := row.profile.homeRegistry), receivedAt, st,
                     if row.originKey.Some? then row.originKey else NilIfEmpty(key),
                     row.tombstoned, row.tombstoneAt)]
    else
      rows[id := Row(StoredProfile(p), receivedAt, st, NilIfEmpty(key), false, None)]
  }

  function Tombstone(rows: Rows, id: string, now: int): Rows {
    if id in rows then rows[id := rows[id].(tombstoned := true, tombstoneAt := Some(now))] else rows
  }

  function SetStatus(rows: Rows, id: string, status: string): Rows {
    if id in rows then rows[id := rows[id].(status := status)] else rows
  }

  predicate Collectable(row: Row, now: int) {
    row.tombstoned && row.tombstoneAt.Some? && row.tombstoneAt.value < now
  }

  /** DELETE ... WHERE tombstoned AND tombstone_at < now */
  function Collected(rows: Rows, now: int): Rows {
    map id | id in rows && !Collectable(rows[id], now) :: rows[id]
  }

  /** The rows a keyword search can return: not tombstoned, and matching. */
  function Search(rows: Rows, matches: Row -> bool): set<string> {
    set id | id in rows && !rows[id].tombstoned && matches(rows[id])
  }

  // ---------------------------------------------------------------------------------------------
  // One announcement
  // ---------------------------------------------------------------------------------------------

  datatype Handler = Handler(seen: map<string, int>, rows: Rows)

  predicate HasPrefix(s: string, p: string) {
    p <= s
  }

  function StripKey(key: string): string {
    if HasPrefix(key, "ed25519:") then key[8..] else key
  }

  /** A key means the same with and without its algorithm in front. */
  lemma StripKeyIs(key: string)
    ensures StripKey("ed25519:" + key) == key
    ensures !HasPrefix(key, "ed25519:") ==> StripKey(key) == key
  {}

  predicate Verified(verify: Verifier, a: Announcement) {
    verify(StripKey(a.originKey), a.(signature := ""), a.signature)
  }

  function DedupId(a: Announcement): string {
    match a.kind
    case "developer_announce" => a.developerId
    case "dev_handle" => a.developerId
    case "name_binding" => a.fqan
    case "registry_proof" => a.domain
    case "peer_attestation" => a.attesterId + ":" + a.subjectId
    case _ => a.entityId
  }

  function DedupKey(a: Announcement): string {
    DedupId(a) + ":" + a.timestamp
  }

  /** The key under which `BroadcastAnnouncement` marks an announcement, whatever its kind. */
  function BroadcastKey(a: Announcement): string {
    a.entityId + ":" + a.timestamp
  }

  predicate IsAgentKind(kind: string) {
    kind !in {"developer_announce", "dev_handle", "name_binding", "registry_proof", "peer_attestation"}
  }

  /** The pinned key must match; a row without a key, or (if allowed) no row at all, passes. */
  predicate Authorized(rows: Rows, id: string, key: string, requireExisting: bool, db: Db) {
    db.readOk && if id !in rows then !requireExisting
                 else rows[id].originKey.None? || rows[id].originKey.value == "" || rows[id].originKey.value == key
  }

  /** The announcement gets past the checks and is marked as seen. */
  predicate Accepts(h: Handler, a: Announcement, verified: bool) {
    && a.hopCount < a.maxHops
    && a.signature != "" && a.originKey != ""
    && verified
    && DedupKey(a) !in h.seen
  }

  /** An accepted announcement is refused only by the origin check of an agent action. */
  predicate Authorizes(rows: Rows, a: Announcement, db: Db) {
    IsAgentKind(a.kind) ==>
      && (a.action == "agent_status" || a.action == "deregister" ==>
            Authorized(rows, a.entityId, a.originKey, true, db))
      && (a.action == "update" ==> Authorized(rows, a.entityId, a.originKey, false, db))
  }

  function RowsAfter(rows: Rows, a: Announcement, db: Db, now: int): Rows {
    if !IsAgentKind(a.kind) || !db.writeOk then rows
    else match a.action
      case "agent_status" => SetStatus(rows, a.entityId, a.status)
      case "register" => Upsert(rows, a.entityId, a.profile, a.originKey, now, "active")
      case "update" => Upsert(rows, a.entityId, a.profile, a.originKey, now, "active")
      case "deregister" => Tombstone(rows, a.entityId, now)
      case _ => rows
  }

  datatype Outcome = Outcome(handler: Handler, forward: Option<Announcement>)

  /** What happens to an announcement that got past the checks: mark, authorise, apply, pass on. */
  function Process(h: Handler, a: Announcement, db: Db, now: int): Outcome {
    var seen := h.seen[DedupKey(a) := now];
    if !Authorizes(h.rows, a, db) then Outcome(Handler(seen, h.rows), None)
    else Outcome(Handler(seen, RowsAfter(h.rows, a, db, now)), Some(a.(hopCount := a.hopCount + 1)))
  }

  function Handle(h: Handler, a: Announcement, verified: bool, db: Db, now: int): Outcome {
    if Accepts(h, a, verified) then Process(h, a, db, now) else Outcome(h, None)
  }

  function Broadcasted(h: Handler, a: Announcement, now: int): Handler {
    h.(seen := h.seen[BroadcastKey(a) := now])
  }

  function Cleaned(h: Handler, window: int, now: int): Handler {
    h.(seen := map k | k in h.seen && h.seen[k] >= now - window :: h.seen[k])
  }

  // ---------------------------------------------------------------------------------------------
  // The in-place code
  // ---------------------------------------------------------------------------------------------

  class GossipHandler {
    const window: int
    var seen: map<string, int>
    var rows: Rows

    function State(): Handler
      reads this
    {
      Handler(seen, rows)
    }

    constructor (window: int)
      ensures this.window == window && State() == Handler(map[], map[])
    {
      this.window := window;
      seen, rows := map[], map[];
    }

    method BroadcastAnnouncement(a: Announcement, now: int)
      modifies this
      ensures State() == Broadcasted(old(State()), a, now)
    {
      var dedupKey := a.entityId + ":" + a.timestamp;
      seen := seen[dedupKey := now];
    }

    method VerifyOriginAuthorization(id: string, originKey: string, requireExisting: bool, db: Db) returns (ok: bool)
      ensures ok == Authorized(rows, id, originKey, requireExisting, db)
    {
      if !db.readOk {
        return false;
      }
      if id !in rows {
        return !requireExisting;
      }
      var stored := if rows[id].originKey.Some? then rows[id].originKey.value else "";
      if stored == "" {
        return true;
      }
      return stored == originKey;
    }

    method HandleAnnouncement(a: Announcement, verify: Verifier, db: Db, now: int)
      returns (forward: Option<Announcement>)
      modifies this
      ensures Outcome(State(), forward) == Handle(old(State()), a, Verified(verify, a), db, now)
    {
      if a.hopCount >= a.maxHops {
        return None;
      }
      if a.signature == "" || a.originKey == "" {
        return None;
      }
      var key := a.originKey;
      if HasPrefix(key, "ed25519:") {
        key := key[8..];
      }
      if !verify(key, a.(signature := ""), a.signature) {
        return None;
      }
      var dedupId := a.entityId;
      match a.kind {
        case "developer_announce" => dedupId := a.developerId;
        case "dev_handle" => dedupId := a.developerId;
        case "name_binding" => dedupId := a.fqan;
        case "registry_proof" => dedupId := a.domain;
        case "peer_attestation" => dedupId := a.attesterId + ":" + a.subjectId;
        case _ =>
      }
      var dedupKey := dedupId + ":" + a.timestamp;
      if dedupKey in seen {
        return None;
      }
      seen := seen[dedupKey := now];
      if IsAgentKind(a.kind) {
        var applied := ApplyAgentAction(a, db, now);
        if !applied {
          return None;
        }
      }
      return Some(a.(hopCount := a.hopCount + 1));
    }

    /** The agent branch of the switch; the other kinds write to other tables. */
    method ApplyAgentAction(a: Announcement, db: Db, now: int) returns (applied: bool)
      requires IsAgentKind(a.kind)
      modifies this`rows
      ensures applied == Authorizes(old(rows), a, db)
      ensures rows == if applied then RowsAfter(old(rows), a, db, now) else old(rows)
    {
      match a.action {
        case "agent_status" =>
          var ok := VerifyOriginAuthorization(a.entityId, a.originKey, true, db);
          if !ok {
            return false;
          }
          if db.writeOk {
            rows := SetStatus(rows, a.entityId, a.status);
          }
        case "register" =>
          if db.writeOk {
            rows := Upsert(rows, a.entityId, a.profile, a.originKey, now, "active");
          }
        case "update" =>
          var ok := VerifyOriginAuthorization(a.entityId, a.originKey, false, db);
          if !ok {
            return false;
          }
          if db.writeOk {
            rows := Upsert(rows, a.entityId, a.profile, a.originKey, now, "active");
          }
        case "deregister" =>
          var ok := VerifyOriginAuthorization(a.entityId, a.originKey, true, db);
          if !ok {
            return false;
          }
          if db.writeOk {
            rows := Tombstone(rows, a.entityId, now);
          }
        case _ =>
      }
      return true;
    }

    /** One tick of `cleanDedupWindow`: entries older than the window are deleted one by one. */
    method CleanDedupWindow(now: int)
      modifies this`seen
      ensures State() == Cleaned(old(State()), window, now)
    {
      var cutoff := now - window;
      var keys := seen.Keys;
      while keys != {}
        invariant keys <= old(seen).Keys
        invariant forall k :: k in seen ==> k in old(seen) && seen[k] == old(seen)[k]
        invariant forall k :: k in keys ==> k in seen
        invariant forall k :: k in old(seen) && k !in keys ==> (k in seen <==> old(seen)[k] >= cutoff)
        decreases |keys|
      {
        var k :| k in keys;
        if seen[k] < cutoff {
          seen := seen - {k};
        }
        keys := keys - {k};
      }
    }

    method CleanExpiredTombstones(now: int)
      modifies this`rows
      ensures State() == old(State()).(rows := Collected(old(rows), now))
    {
      rows := Collected(rows, now);
    }
  }
}
