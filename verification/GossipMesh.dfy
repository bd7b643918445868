/**
 The mesh of gossip nodes (internal/mesh/gossip.go; `handleGossipMessage` and `BroadcastExcept` in
 internal/mesh/transport.go).

 The state holds the handler and the connections of every node, the announcements in flight, the
 signatures made so far, and what was broadcast and accepted.  Any announcement in flight may be
 delivered next or lost; connections may change at any time.
 */
module GossipMesh {
  import opened Common
  import opened Gossip

  datatype Packet = Packet(from: string, to: string, ann: Announcement)

  /** A signature made with a key over an announcement whose signature field is empty. */
  datatype Signed = Signed(key: string, body: Announcement, signature: string)

  /** A Create function made this announcement at this node. */
  datatype Made = Made(node: string, ann: Announcement)

  datatype Sent = Sent(node: string, ann: Announcement, peers: seq<string>)

  datatype Taken = Taken(node: string, ann: Announcement)

  datatype Mesh = Mesh(handlers: map<string, Handler>, conns: map<string, seq<string>>, flying: seq<Packet>,
                       signed: set<Signed>, made: set<Made>, sent: set<Sent>, taken: set<Taken>)

  // ---------------------------------------------------------------------------------------------
  // The Create* functions
  // ---------------------------------------------------------------------------------------------

  /** What the seven Create functions are given besides registry, key, clock and configuration. */
  datatype Subject =
    | AgentSubject(entityId: string, profile: Profile, action: string, extra: string)
    | StatusSubject(entityId: string, status: string)
    | DeveloperSubject(developerId: string, profile: Profile, action: string, extra: string)
    | HandleSubject(developerId: string, profile: Profile, action: string, extra: string)
    | NameSubject(fqan: string, entityId: string, developerId: string, action: string, extra: string)
    | ProofSubject(domain: string, action: string, extra: string)
    | AttestationSubject(attesterId: string, subjectId: string, action: string, extra: string)

  const NO_PROFILE: Profile := Profile("", "", [], "", "", "", "", "", "", "")

  /** The announcement before it is signed: hop count 0, hop limit from the configuration. */
  function Unsigned(s: Subject, registryId: string, key: string, timestamp: string, maxHops: int): (a: Announcement)
    ensures a.hopCount == 0 && a.maxHops == maxHops && a.signature == "" && a.originKey == key
  {
    var base := Announcement("agent_announce", "", "", "", timestamp, key, "", 0, maxHops, "", "", "", "", "",
                             NO_PROFILE.(homeRegistry := registryId), "");
    match s
    case AgentSubject(id, p, action, extra) =>
      base.(entityId := id, profile := p.(homeRegistry := registryId), developerId := p.developerId, action := action,
            extra := extra)
    case StatusSubject(id, status) => base.(entityId := id, status := status, action := "agent_status")
    case DeveloperSubject(id, p, action, extra) =>
      base.(kind := "developer_announce", developerId := id, profile := p.(homeRegistry := registryId),
            action := action, extra := extra)
    case HandleSubject(id, p, action, extra) =>
      base.(kind := "dev_handle", developerId := id, profile := p.(homeRegistry := registryId), action := action,
            extra := extra)
    case NameSubject(fqan, id, dev, action, extra) =>
      base.(kind := "name_binding", fqan := fqan, entityId := id, developerId := dev, action := action, extra := extra)
    case ProofSubject(domain, action, extra) =>
      base.(kind := "registry_proof", domain := domain, action := action, extra := extra)
    case AttestationSubject(attester, subject, action, extra) =>
      base.(kind := "peer_attestation", attesterId := attester, subjectId := subject, action := action, extra := extra)
  }

  predicate AboutAgent(s: Subject) {
    s.AgentSubject? || s.StatusSubject?
  }

  /** What an announcement is deduplicated by: that which it is about. */
  function SubjectId(s: Subject): string {
    match s
    case AgentSubject(id, _, _, _) => id
    case StatusSubject(id, _) => id
    case DeveloperSubject(id, _, _, _) => id
    case HandleSubject(id, _, _, _) => id
    case NameSubject(fqan, _, _, _, _) => fqan
    case ProofSubject(domain, _, _) => domain
    case AttestationSubject(attester, subject, _, _) => attester + ":" + subject
  }

  /** Creator and handler agree on what an announcement is about and on what it does. */
  lemma CreatedIsUnderstood(s: Subject, registryId: string, key: string, timestamp: string, maxHops: int)
    ensures var a := Unsigned(s, registryId, key, timestamp, maxHops);
            && DedupKey(a) == SubjectId(s) + ":" + timestamp
            && (IsAgentKind(a.kind) <==> AboutAgent(s))
            && a.profile.homeRegistry == registryId
            && (if s.StatusSubject? then a.action == "agent_status" && a.status == s.status else a.action == s.action)
            && (s.AgentSubject? ==> a.profile.(homeRegistry := "") == s.profile.(homeRegistry := ""))
  {}

  // ---------------------------------------------------------------------------------------------
  // Steps
  // ---------------------------------------------------------------------------------------------

  datatype Step =
    | Joined(node: string, peers: seq<string>)
    | Reconnected(node: string, peers: seq<string>)
    | Created(node: string, subject: Subject, registryId: string, key: string, timestamp: string, maxHops: int,
              signature: string)
    | BroadcastBy(node: string, ann: Announcement, now: int)
    | Delivered(index: nat, verified: bool, db: Db, now: int)
    | Lost(index: nat)
    | Ticked(node: string, window: int, now: int)

  /** `BroadcastExcept`: one copy to every connected peer but one. */
  function Copies(from: string, peers: seq<string>, except: string, a: Announcement): (ps: seq<Packet>)
    ensures |ps| <= |peers|
    ensures forall p :: p in ps ==> p.from == from && p.to in peers && p.ann == a
  {
    if peers == [] then []
    else
      var rest := Copies(from, peers[1..], except, a);
      if peers[0] != except then [Packet(from, peers[0], a)] + rest else rest
  }

  /** The loop of `BroadcastExcept`. */
  method BroadcastExcept(from: string, peers: seq<string>, except: string, a: Announcement) returns (ps: seq<Packet>)
    ensures ps == Copies(from, peers, except, a)
    ensures forall q :: q in peers && q != except ==> Packet(from, q, a) in ps
    ensures forall p :: p in ps ==> p.to != except
  {
    ps := [];
    var i := |peers|;
    while i > 0
      invariant 0 <= i <= |peers|
      invariant ps == Copies(from, peers[i..], except, a)
      invariant forall q :: q in peers[i..] && q != except ==> Packet(from, q, a) in ps
      invariant forall p :: p in ps ==> p.to != except
    {
      i := i - 1;
      assert peers[i..] == [peers[i]] + peers[i + 1..];
      if peers[i] != except {
        ps := [Packet(from, peers[i], a)] + ps;
      }
    }
    assert peers[0..] == peers;
  }

  /** A copy goes to every peer but the given one, and to nobody else. */
  lemma {:induction false} CopiesGoTo(from: string, peers: seq<string>, except: string, a: Announcement, q: string)
    ensures Packet(from, q, a) in Copies(from, peers, except, a) <==> q in peers && q != except
  {
    if peers != [] {
      CopiesGoTo(from, peers[1..], except, a, q);
      assert peers == [peers[0]] + peers[1..];
    }
  }

  function Without(s: seq<Packet>, i: nat): seq<Packet>
    requires i < |s|
  {
    s[..i] + s[i + 1..]
  }

  predicate Enabled(m: Mesh, s: Step) {
    match s
    case BroadcastBy(node, _, _) => node in m.handlers && node in m.conns
    case Delivered(i, _, _, _) => i < |m.flying| && m.flying[i].to in m.handlers && m.flying[i].to in m.conns
    case Lost(i) => i < |m.flying|
    case Ticked(node, _, _) => node in m.handlers
    case _ => true
  }

  function Next(m: Mesh, s: Step): Mesh
    requires Enabled(m, s)
  {
    match s
    case Joined(node, peers) =>
      m.(handlers := m.handlers[node := Handler(map[], map[])], conns := m.conns[node := peers])
    case Reconnected(node, peers) => m.(conns := m.conns[node := peers])
    case Created(node, subject, registryId, key, timestamp, maxHops, signature) =>
      var body := Unsigned(subject, registryId, key, timestamp, maxHops);
      m.(signed := m.signed + {Signed(StripKey(key), body, signature)},
         made := m.made + {Made(node, body.(signature := signature))})
    case BroadcastBy(node, a, now) =>
      m.(handlers := m.handlers[node := Broadcasted(m.handlers[node], a, now)],
         flying := m.flying + Copies(node, m.conns[node], "", a),
         sent := m.sent + {Sent(node, a, m.conns[node])})
    case Delivered(i, verified, db, now) => Deliver(m, i, verified, db, now)
    case Lost(i) => m.(flying := Without(m.flying, i))
    case Ticked(node, window, now) => m.(handlers := m.handlers[node := Cleaned(m.handlers[node], window, now)])
  }

  /** `handleGossipMessage`: run the handler, pass on what it lets through. */
  function Deliver(m: Mesh, i: nat, verified: bool, db: Db, now: int): Mesh
    requires Enabled(m, Delivered(i, verified, db, now))
  {
    var p := m.flying[i];
    var h := m.handlers[p.to];
    var out := Handle(h, p.ann, verified, db, now);
    m.(handlers := m.handlers[p.to := out.handler],
       flying := Without(m.flying, i) +
         (if out.forward.Some? then Copies(p.to, m.conns[p.to], p.from, out.forward.value) else []),
       taken := if Accepts(h, p.ann, verified) then m.taken + {Taken(p.to, p.ann)} else m.taken)
  }

  const EMPTY_MESH: Mesh := Mesh(map[], map[], [], {}, {}, {}, {})

  /** The state after a run; a step that is not enabled does nothing. */
  function Run(steps: seq<Step>): Mesh {
    if steps == [] then EMPTY_MESH
    else
      var m := Run(steps[..|steps| - 1]);
      if Enabled(m, steps[|steps| - 1]) then Next(m, steps[|steps| - 1]) else m
  }

  // ---------------------------------------------------------------------------------------------
  // Every flood ends
  // ---------------------------------------------------------------------------------------------

  function Pow(b: nat, e: nat): nat {
    if e == 0 then 1 else b * Pow(b, e - 1)
  }

  /** How many deliveries a copy may still cause, with at most d connections per node. */
  function Weight(a: Announcement, d: nat): nat {
    if a.hopCount < a.maxHops then Pow(d + 1, a.maxHops - a.hopCount) else 1
  }

  function Potential(ps: seq<Packet>, d: nat): nat {
    if ps == [] then 0 else Weight(ps[0].ann, d) + Potential(ps[1..], d)
  }

  lemma {:induction false} PowPositive(b: nat, e: nat)
    requires b >= 1
    ensures Pow(b, e) >= 1
  {
    if e > 0 {
      PowPositive(b, e - 1);
      assert b * Pow(b, e - 1) >= 1 * 1;
    }
  }

  lemma {:induction false} PotentialSplit(a: seq<Packet>, b: seq<Packet>, d: nat)
    ensures Potential(a + b, d) == Potential(a, d) + Potential(b, d)
  {
    if a == [] {
      assert a + b == b;
    } else {
      assert (a + b)[1..] == a[1..] + b;
      PotentialSplit(a[1..], b, d);
    }
  }

  lemma PotentialWithout(s: seq<Packet>, i: nat, d: nat)
    requires i < |s|
    ensures Potential(s, d) == Potential(Without(s, i), d) + Weight(s[i].ann, d)
  {
    assert s == s[..i] + ([s[i]] + s[i + 1..]);
    PotentialSplit(s[..i], [s[i]] + s[i + 1..], d);
    PotentialSplit([s[i]], s[i + 1..], d);
    PotentialSplit(s[..i], s[i + 1..], d);
  }

  lemma {:induction false} PotentialOfCopies(from: string, peers: seq<string>, except: string, a: Announcement, d: nat)
    ensures Potential(Copies(from, peers, except, a), d) <= |peers| * Weight(a, d)
  {
    if peers != [] {
      PotentialOfCopies(from, peers[1..], except, a, d);
      assert |peers| * Weight(a, d) == (|peers| - 1) * Weight(a, d) + Weight(a, d);
      if peers[0] != except {
        var rest := Copies(from, peers[1..], except, a);
        assert ([Packet(from, peers[0], a)] + rest)[1..] == rest;
      }
    }
  }

  /** d forwarded copies weigh less than the copy that caused them. */
  lemma ForwardedWeighLess(a: Announcement, d: nat, n: nat)
    requires a.hopCount < a.maxHops && n <= d
    ensures n * Weight(a.(hopCount := a.hopCount + 1), d) < Weight(a, d)
  {
    var e := a.maxHops - a.hopCount;
    PowPositive(d + 1, e - 1);
    var w := Pow(d + 1, e - 1);
    assert Weight(a.(hopCount := a.hopCount + 1), d) == w;
    assert Weight(a, d) == (d + 1) * w;
    assert n * w <= d * w < (d + 1) * w;
  }

  predicate Degree(m: Mesh, d: nat) {
    forall node :: node in m.conns ==> |m.conns[node]| <= d
  }

  /** Every delivery lowers the potential, whatever the signature check, the database and the marks say. */
  lemma DeliveryLowersPotential(m: Mesh, d: nat, i: nat, verified: bool, db: Db, now: int)
    requires Degree(m, d) && Enabled(m, Delivered(i, verified, db, now))
    ensures Potential(Deliver(m, i, verified, db, now).flying, d) < Potential(m.flying, d)
  {
    var p := m.flying[i];
    PotentialWithout(m.flying, i, d);
    match Handle(m.handlers[p.to], p.ann, verified, db, now).forward
    case Some(a) =>
      CopiesWeighLess(p.to, m.conns[p.to], p.from, p.ann, d);
      PotentialOfBoth(Without(m.flying, i), Copies(p.to, m.conns[p.to], p.from, a), d, Weight(p.ann, d));
    case None =>
      assert Without(m.flying, i) + [] == Without(m.flying, i);
      WeightPositive(p.ann, d);
  }

  lemma WeightPositive(a: Announcement, d: nat)
    ensures Weight(a, d) >= 1
  {
    if a.hopCount < a.maxHops {
      PowPositive(d + 1, a.maxHops - a.hopCount);
    }
  }

  lemma PotentialOfBoth(a: seq<Packet>, b: seq<Packet>, d: nat, w: nat)
    requires Potential(b, d) < w
    ensures Potential(a + b, d) < Potential(a, d) + w
  {
    PotentialSplit(a, b, d);
  }

  lemma CopiesWeighLess(from: string, peers: seq<string>, except: string, a: Announcement, d: nat)
    requires a.hopCount < a.maxHops && |peers| <= d
    ensures Potential(Copies(from, peers, except, a.(hopCount := a.hopCount + 1)), d) < Weight(a, d)
  {
    PotentialOfCopies(from, peers, except, a.(hopCount := a.hopCount + 1), d);
    ForwardedWeighLess(a, d, |peers|);
  }

  /** Deliveries made in a run. */
  function Deliveries(steps: seq<Step>): nat {
    if steps == [] then 0
    else
      var s := steps[|steps| - 1];
      Deliveries(steps[..|steps| - 1]) + if s.Delivered? && Enabled(Run(steps[..|steps| - 1]), s) then 1 else 0
  }

  /** What the broadcasts of a run may cause: at most d copies of each announcement. */
  function Injected(steps: seq<Step>, d: nat): nat {
    if steps == [] then 0
    else
      var s := steps[|steps| - 1];
      Injected(steps[..|steps| - 1], d)
      + if s.BroadcastBy? && Enabled(Run(steps[..|steps| - 1]), s) then d * Weight(s.ann, d) else 0
  }

  predicate DegreeBounded(steps: seq<Step>, d: nat) {
    forall i :: 0 <= i < |steps| ==>
      (steps[i].Joined? ==> |steps[i].peers| <= d) && (steps[i].Reconnected? ==> |steps[i].peers| <= d)
  }

  lemma {:induction false} DegreeKept(steps: seq<Step>, d: nat)
    requires DegreeBounded(steps, d)
    ensures Degree(Run(steps), d)
  {
    if steps != [] {
      var before := steps[..|steps| - 1];
      assert forall i :: 0 <= i < |before| ==> before[i] == steps[i];
      DegreeKept(before, d);
    }
  }

  /**
   Every flood ends: the deliveries made, plus the potential of what is still in flight, never
   exceed what the broadcasts put in.  Marks may be cleaned, connections may change and copies may
   be lost at any time.
   */
  lemma {:induction false} FloodsEnd(steps: seq<Step>, d: nat)
    requires DegreeBounded(steps, d)
    ensures Deliveries(steps) + Potential(Run(steps).flying, d) <= Injected(steps, d)
  {
    if steps != [] {
      var before, s := steps[..|steps| - 1], steps[|steps| - 1];
      assert forall i :: 0 <= i < |before| ==> before[i] == steps[i];
      FloodsEnd(before, d);
      DegreeKept(before, d);
      if Enabled(Run(before), s) {
        StepPotential(Run(before), d, s);
      }
    }
  }

  lemma MulMonotone(n: nat, d: nat, w: nat)
    requires n <= d
    ensures n * w <= d * w
  {}

  lemma BroadcastPotential(flying: seq<Packet>, node: string, peers: seq<string>, a: Announcement, d: nat)
    requires |peers| <= d
    ensures Potential(flying + Copies(node, peers, "", a), d) <= Potential(flying, d) + d * Weight(a, d)
  {
    PotentialSplit(flying, Copies(node, peers, "", a), d);
    PotentialOfCopies(node, peers, "", a, d);
    MulMonotone(|peers|, d, Weight(a, d));
  }

  /** One step: a delivery costs at least one unit, a broadcast puts at most its share in. */
  lemma StepPotential(m: Mesh, d: nat, s: Step)
    requires Degree(m, d) && Enabled(m, s)
    ensures Potential(Next(m, s).flying, d) + (if s.Delivered? then 1 else 0)
            <= Potential(m.flying, d) + (if s.BroadcastBy? then d * Weight(s.ann, d) else 0)
  {
    match s
    case BroadcastBy(node, a, now) =>
      BroadcastPotential(m.flying, node, m.conns[node], a, d);
    case Delivered(i, verified, db, now) =>
      DeliveryLowersPotential(m, d, i, verified, db, now);
    case Lost(i) =>
      PotentialWithout(m.flying, i, d);
    case _ =>
  }

  // ---------------------------------------------------------------------------------------------
  // Ideal signatures
  // ---------------------------------------------------------------------------------------------

  /** The signature on an announcement is one that was made, with that key, over exactly this content. */
  predicate Genuine(m: Mesh, a: Announcement) {
    Signed(StripKey(a.originKey), a.(signature := ""), a.signature) in m.signed
  }

  /** Verification accepts exactly the genuine signatures. */
  predicate IdealStep(m: Mesh, s: Step) {
    s.Delivered? && Enabled(m, s) ==> (s.verified <==> Genuine(m, m.flying[s.index].ann))
  }

  /** A node broadcasts only what a Create function made at that node. */
  predicate HonestStep(m: Mesh, s: Step) {
    IdealStep(m, s) && (s.BroadcastBy? ==> Made(s.node, s.ann) in m.made)
  }

  predicate IdealRun(steps: seq<Step>) {
    steps == [] || (IdealRun(steps[..|steps| - 1]) && IdealStep(Run(steps[..|steps| - 1]), steps[|steps| - 1]))
  }

  predicate HonestRun(steps: seq<Step>) {
    steps == [] || (HonestRun(steps[..|steps| - 1]) && HonestStep(Run(steps[..|steps| - 1]), steps[|steps| - 1]))
  }

  ghost predicate SignedAtHopZero(m: Mesh) {
    && (forall x :: x in m.signed ==> x.body.hopCount == 0)
    && (forall t :: t in m.taken ==> t.ann.hopCount == 0)
  }

  lemma NextSignedAtHopZero(m: Mesh, s: Step)
    requires SignedAtHopZero(m) && Enabled(m, s) && IdealStep(m, s)
    ensures SignedAtHopZero(Next(m, s))
  {
    if s.Delivered? && s.verified {
      var a := m.flying[s.index].ann;
      assert Signed(StripKey(a.originKey), a.(signature := ""), a.signature) in m.signed;
    }
  }

  /**
   The signature covers the hop count and forwarding raises it without signing again.  So with ideal
   signatures nothing but hop-0 copies is ever accepted, whatever else anyone broadcasts.
   */
  lemma {:induction false} OnlyHopZeroIsAccepted(steps: seq<Step>)
    requires IdealRun(steps)
    ensures SignedAtHopZero(Run(steps))
  {
    if steps != [] {
      OnlyHopZeroIsAccepted(steps[..|steps| - 1]);
      var m := Run(steps[..|steps| - 1]);
      if Enabled(m, steps[|steps| - 1]) {
        NextSignedAtHopZero(m, steps[|steps| - 1]);
      }
    }
  }

  /** Consequently a forwarded copy dies at the next node: nothing is marked, stored or passed on. */
  lemma ForwardedCopiesAreDropped(steps: seq<Step>, s: Step)
    requires IdealRun(steps + [s])
    requires s.Delivered? && Enabled(Run(steps), s) && Run(steps).flying[s.index].ann.hopCount != 0
    ensures Run(steps + [s]) == Run(steps).(flying := Without(Run(steps).flying, s.index))
  {
    assert (steps + [s])[..|steps|] == steps;
    OnlyHopZeroIsAccepted(steps);
    var m := Run(steps);
    var p := m.flying[s.index];
    assert !Genuine(m, p.ann);
    assert m.handlers[p.to := m.handlers[p.to]] == m.handlers;
    assert Without(m.flying, s.index) + [] == Without(m.flying, s.index);
  }

  /** The node was a connected peer of the originator when that broadcast this very announcement. */
  ghost predicate DirectNeighbour(m: Mesh, node: string, a: Announcement) {
    exists x :: x in m.sent && x.ann == a && node in x.peers && Made(x.node, a) in m.made
  }

  ghost predicate FirstHopInv(m: Mesh) {
    && SignedAtHopZero(m)
    && (forall x :: x in m.made ==> x.ann.hopCount == 0)
    && (forall i :: 0 <= i < |m.flying| ==> m.flying[i].ann.hopCount >= 0)
    && (forall i :: 0 <= i < |m.flying| && m.flying[i].ann.hopCount == 0 ==>
          DirectNeighbour(m, m.flying[i].to, m.flying[i].ann))
    && (forall t :: t in m.taken ==> DirectNeighbour(m, t.node, t.ann))
  }

  lemma StillNeighbour(m: Mesh, m': Mesh)
    requires m.sent <= m'.sent && m.made <= m'.made
    ensures forall node, a :: DirectNeighbour(m, node, a) ==> DirectNeighbour(m', node, a)
  {}

  lemma BroadcastFirstHop(m: Mesh, node: string, a: Announcement, now: int)
    requires FirstHopInv(m) && Enabled(m, BroadcastBy(node, a, now)) && Made(node, a) in m.made
    ensures FirstHopInv(Next(m, BroadcastBy(node, a, now)))
  {
    var m' := Next(m, BroadcastBy(node, a, now));
    StillNeighbour(m, m');
    var copies := Copies(node, m.conns[node], "", a);
    assert Sent(node, a, m.conns[node]) in m'.sent;
    forall i | 0 <= i < |m'.flying|
      ensures m'.flying[i].ann.hopCount >= 0
      ensures m'.flying[i].ann.hopCount == 0 ==> DirectNeighbour(m', m'.flying[i].to, m'.flying[i].ann)
    {
      if i < |m.flying| {
        assert m'.flying[i] == m.flying[i];
      } else {
        assert m'.flying[i] in copies;
      }
    }
  }

  lemma DeliverFirstHop(m: Mesh, s: Step)
    requires FirstHopInv(m) && s.Delivered? && Enabled(m, s) && IdealStep(m, s)
    ensures FirstHopInv(Next(m, s))
  {
    var m' := Next(m, s);
    NextSignedAtHopZero(m, s);
    StillNeighbour(m, m');
    var p := m.flying[s.index];
    var rest := Without(m.flying, s.index);
    var out := Handle(m.handlers[p.to], p.ann, s.verified, s.db, s.now);
    forall i | 0 <= i < |m'.flying|
      ensures m'.flying[i].ann.hopCount >= 0
      ensures m'.flying[i].ann.hopCount == 0 ==> DirectNeighbour(m', m'.flying[i].to, m'.flying[i].ann)
    {
      if i < |rest| {
        var j := if i < s.index then i else i + 1;
        assert m'.flying[i] == rest[i] == m.flying[j];
      } else {
        assert out.forward.Some?;
        assert m'.flying[i] in Copies(p.to, m.conns[p.to], p.from, out.forward.value);
      }
    }
    if Accepts(m.handlers[p.to], p.ann, s.verified) {
      assert Taken(p.to, p.ann) in m'.taken;
      assert p.ann.hopCount == 0;
    }
  }

  lemma LostFirstHop(m: Mesh, i: nat)
    requires FirstHopInv(m) && i < |m.flying|
    ensures FirstHopInv(m.(flying := Without(m.flying, i)))
  {}

  lemma {:induction false} EveryRunKeepsFirstHop(steps: seq<Step>)
    requires HonestRun(steps)
    ensures FirstHopInv(Run(steps))
  {
    if steps != [] {
      EveryRunKeepsFirstHop(steps[..|steps| - 1]);
      var m, s := Run(steps[..|steps| - 1]), steps[|steps| - 1];
      if Enabled(m, s) {
        match s
        case BroadcastBy(node, a, now) => BroadcastFirstHop(m, node, a, now);
        case Delivered(_, _, _, _) => DeliverFirstHop(m, s);
        case Lost(i) => LostFirstHop(m, i);
        case _ => StillNeighbour(m, Next(m, s));
      }
    }
  }

  /**
   In every run of nodes that broadcast what they created, a node that accepts an announcement was a
   direct neighbour of the node that created it.
   */
  lemma OnlyNeighboursAccept(steps: seq<Step>, node: string, a: Announcement)
    requires HonestRun(steps) && Taken(node, a) in Run(steps).taken
    ensures a.hopCount == 0 && DirectNeighbour(Run(steps), node, a)
  {
    EveryRunKeepsFirstHop(steps);
  }

  // ---------------------------------------------------------------------------------------------
  // What does arrive
  // ---------------------------------------------------------------------------------------------

  /** A broadcast puts a copy in flight to every connected peer. */
  lemma BroadcastReaches(m: Mesh, node: string, a: Announcement, now: int, q: string)
    requires Enabled(m, BroadcastBy(node, a, now)) && q in m.conns[node] && q != ""
    ensures Packet(node, q, a) in Next(m, BroadcastBy(node, a, now)).flying
  {
    CopiesGoTo(node, m.conns[node], "", a, q);
  }

  /** A delivered copy that its receiver lets through goes on, one hop further, to all peers but the sender. */
  lemma DeliveryReaches(m: Mesh, i: nat, verified: bool, db: Db, now: int, q: string)
    requires Enabled(m, Delivered(i, verified, db, now))
    ensures var p := m.flying[i];
            var further := p.ann.(hopCount := p.ann.hopCount + 1);
            && (Handle(m.handlers[p.to], p.ann, verified, db, now).forward.Some?
                && q in m.conns[p.to] && q != p.from ==>
                  Packet(p.to, q, further) in Deliver(m, i, verified, db, now).flying)
            && Deliver(m, i, verified, db, now).handlers
               == m.handlers[p.to := Handle(m.handlers[p.to], p.ann, verified, db, now).handler]
  {
    var p := m.flying[i];
    CopiesGoTo(p.to, m.conns[p.to], p.from, p.ann.(hopCount := p.ann.hopCount + 1), q);
  }

  ghost predicate MadeIsGenuine(m: Mesh) {
    forall x :: x in m.made ==> Genuine(m, x.ann)
  }

  lemma {:induction false} EveryRunKeepsGenuine(steps: seq<Step>)
    ensures MadeIsGenuine(Run(steps))
  {
    if steps != [] {
      EveryRunKeepsGenuine(steps[..|steps| - 1]);
      var m, s := Run(steps[..|steps| - 1]), steps[|steps| - 1];
      if Enabled(m, s) && s.Created? {
        CreatedIsGenuine(m, s);
      }
    }
  }

  lemma CreatedIsGenuine(m: Mesh, s: Step)
    requires MadeIsGenuine(m) && s.Created?
    ensures MadeIsGenuine(Next(m, s))
  {
    var body := Unsigned(s.subject, s.registryId, s.key, s.timestamp, s.maxHops);
    assert body.(signature := s.signature).(signature := "") == body;
  }

  /**
   The partner of `OnlyNeighboursAccept`: in every honest run a copy that comes straight from its
   originator passes the signature check, and so is accepted exactly if it is signed, may travel at all
   and its key is not marked at the receiver.
   */
  lemma NeighbourAcceptsIff(steps: seq<Step>, s: Step)
    requires HonestRun(steps + [s]) && s.Delivered? && Enabled(Run(steps), s)
    requires Run(steps).flying[s.index].ann.hopCount == 0
    ensures var p := Run(steps).flying[s.index];
            && DirectNeighbour(Run(steps), p.to, p.ann)
            && (Taken(p.to, p.ann) in Run(steps + [s]).taken
                <==> || Taken(p.to, p.ann) in Run(steps).taken
                     || (&& 0 < p.ann.maxHops && p.ann.signature != "" && p.ann.originKey != ""
                         && DedupKey(p.ann) !in Run(steps).handlers[p.to].seen))
  {
    assert (steps + [s])[..|steps|] == steps;
    EveryRunKeepsFirstHop(steps);
    EveryRunKeepsGenuine(steps);
    var m := Run(steps);
    var p := m.flying[s.index];
    var x :| x in m.sent && x.ann == p.ann && p.to in x.peers && Made(x.node, p.ann) in m.made;
    assert Genuine(m, p.ann);
  }
}
