/**
 Every node of a mesh lives a history in the sense of `GossipHistory`: what holds over all histories of one
 node holds of every node in every run of the mesh (internal/mesh/gossip.go, internal/mesh/transport.go).
 */
module GossipMeshHistory {
  import opened Gossip
  import opened GossipMesh
  import GossipHistory

  /** What a step of the mesh is to one node: an event or nothing. */
  function EventsAt(m: Mesh, s: Step, node: string): seq<GossipHistory.Event> {
    if !Enabled(m, s) then []
    else match s
      case BroadcastBy(n, a, now) => if n == node then [GossipHistory.Broadcast(a, now)] else []
      case Delivered(i, verified, db, now) =>
        if m.flying[i].to == node then [GossipHistory.Received(m.flying[i].ann, verified, db, now)] else []
      case Ticked(n, _, now) => if n == node then [GossipHistory.CleanerTick(now)] else []
      case _ => []
  }

  predicate JoinsAt(s: Step, node: string) {
    s.Joined? && s.node == node
  }

  /** What has happened to a node since it joined last. */
  function HistoryOf(steps: seq<Step>, node: string): seq<GossipHistory.Event> {
    if steps == [] then []
    else
      var before, s := steps[..|steps| - 1], steps[|steps| - 1];
      if JoinsAt(s, node) then [] else HistoryOf(before, node) + EventsAt(Run(before), s, node)
  }

  /** The cleaner of the node always uses this window. */
  ghost predicate CleansWith(steps: seq<Step>, node: string, window: int) {
    forall i :: 0 <= i < |steps| && steps[i].Ticked? && steps[i].node == node ==> steps[i].window == window
  }

  const NEW_HANDLER: Handler := Handler(map[], map[])

  /** One step moves one handler, as its event says, and no other. */
  lemma StepIsEvent(m: Mesh, s: Step, node: string, window: int)
    requires Enabled(m, s) && node in m.handlers && !JoinsAt(s, node)
    requires s.Ticked? && s.node == node ==> s.window == window
    ensures node in Next(m, s).handlers
    ensures Next(m, s).handlers[node] == GossipHistory.Run(m.handlers[node], window, EventsAt(m, s, node))
  {
    var es := EventsAt(m, s, node);
    if es != [] {
      RunOfOne(m.handlers[node], window, es[0]);
    }
  }

  lemma RunOfOne(h: Handler, window: int, e: GossipHistory.Event)
    ensures GossipHistory.Run(h, window, [e]) == GossipHistory.After(h, window, e)
  {
    assert [e][..0] == [];
  }

  lemma RunOneMore(h: Handler, window: int, es: seq<GossipHistory.Event>, more: seq<GossipHistory.Event>)
    requires |more| <= 1
    ensures GossipHistory.Run(h, window, es + more)
            == GossipHistory.Run(GossipHistory.Run(h, window, es), window, more)
  {
    if more == [] {
      assert es + more == es;
    } else {
      assert more == [more[0]] && (es + more)[..|es|] == es;
      RunOfOne(GossipHistory.Run(h, window, es), window, more[0]);
    }
  }

  /** In every run the state of every node is that of a new node after the history of that node. */
  lemma {:induction false} EveryNodeHasAHistory(steps: seq<Step>, node: string, window: int)
    requires CleansWith(steps, node, window) && node in Run(steps).handlers
    ensures Run(steps).handlers[node] == GossipHistory.Run(NEW_HANDLER, window, HistoryOf(steps, node))
  {
    if steps != [] {
      var before, s := steps[..|steps| - 1], steps[|steps| - 1];
      var m := Run(before);
      if !JoinsAt(s, node) {
        BeforeTheLast(steps, node, window);
        EveryNodeHasAHistory(before, node, window);
        RunOneMore(NEW_HANDLER, window, HistoryOf(before, node), EventsAt(m, s, node));
        if Enabled(m, s) {
          StepIsEvent(m, s, node, window);
        }
      }
    }
  }

  /** A node that did not join just now was there before. */
  lemma BeforeTheLast(steps: seq<Step>, node: string, window: int)
    requires steps != [] && CleansWith(steps, node, window) && node in Run(steps).handlers
    requires !JoinsAt(steps[|steps| - 1], node)
    ensures CleansWith(steps[..|steps| - 1], node, window) && node in Run(steps[..|steps| - 1]).handlers
  {
    var before, s := steps[..|steps| - 1], steps[|steps| - 1];
    assert forall i :: 0 <= i < |before| ==> before[i] == steps[i];
    if Enabled(Run(before), s) {
      OnlyJoiningAdds(Run(before), s, node);
    }
  }

  lemma OnlyJoiningAdds(m: Mesh, s: Step, node: string)
    requires Enabled(m, s) && !JoinsAt(s, node)
    ensures node in Next(m, s).handlers <==> node in m.handlers
  {}

  // ---------------------------------------------------------------------------------------------
  // Deduplication in a mesh
  // ---------------------------------------------------------------------------------------------

  /** Step i delivers an announcement with this key to the node, which accepts it. */
  ghost predicate AcceptsAt(steps: seq<Step>, i: nat, node: string, key: string)
    requires i < |steps|
  {
    var m, s := Run(steps[..i]), steps[i];
    && s.Delivered? && Enabled(m, s) && m.flying[s.index].to == node
    && DedupKey(m.flying[s.index].ann) == key && Accepts(m.handlers[node], m.flying[s.index].ann, s.verified)
  }

  /** The node stays, without joining anew, from step i until before step j. */
  ghost predicate StaysBetween(steps: seq<Step>, node: string, i: nat, j: nat)
    requires j <= |steps|
  {
    forall n :: i <= n < j ==> !JoinsAt(steps[n], node)
  }

  lemma NextInHistory(steps: seq<Step>, node: string, n: nat)
    requires n < |steps| && !JoinsAt(steps[n], node)
    ensures HistoryOf(steps[..n + 1], node)
            == HistoryOf(steps[..n], node) + EventsAt(Run(steps[..n]), steps[n], node)
    ensures HistoryOf(steps[..n], node) <= HistoryOf(steps[..n + 1], node)
  {
    assert steps[..n + 1][..n] == steps[..n];
  }

  lemma {:induction false} HistoryGrows(steps: seq<Step>, node: string, i: nat, j: nat)
    requires i <= j <= |steps| && StaysBetween(steps, node, i, j)
    ensures HistoryOf(steps[..i], node) <= HistoryOf(steps[..j], node)
  {
    if i < j {
      HistoryGrows(steps, node, i, j - 1);
      NextInHistory(steps, node, j - 1);
      PrefixOfPrefix(HistoryOf(steps[..i], node), HistoryOf(steps[..j - 1], node), HistoryOf(steps[..j], node));
    }
  }

  lemma PrefixOfPrefix<T>(a: seq<T>, b: seq<T>, c: seq<T>)
    requires a <= b <= c
    ensures a <= c
  {}

  /** Event number `at` of the history accepts the key at this time. */
  ghost predicate AcceptedIn(es: seq<GossipHistory.Event>, at: nat, window: int, key: string, time: int) {
    at < |es| && GossipHistory.AcceptedAt(NEW_HANDLER, window, es, at, key) && es[at].at == time
  }

  /** An acceptance in a run is an acceptance in the history of the node. */
  lemma AcceptanceInHistory(steps: seq<Step>, i: nat, node: string, window: int, key: string)
    requires CleansWith(steps, node, window) && i < |steps| && AcceptsAt(steps, i, node, key)
    ensures AcceptedIn(HistoryOf(steps[..i + 1], node), |HistoryOf(steps[..i], node)|, window, key, steps[i].now)
  {
    var before := steps[..i];
    assert CleansWith(before, node, window);
    NextInHistory(steps, node, i);
    EveryNodeHasAHistory(before, node, window);
    var es, h := HistoryOf(steps[..i + 1], node), HistoryOf(before, node);
    assert es[..|h|] == h;
  }

  lemma AcceptedInLonger(es: seq<GossipHistory.Event>, longer: seq<GossipHistory.Event>, at: nat, window: int,
                         key: string, time: int)
    requires AcceptedIn(es, at, window, key, time) && es <= longer
    ensures AcceptedIn(longer, at, window, key, time)
  {
    assert longer[..at] == es[..at];
  }

  lemma ApartInHistory(es: seq<GossipHistory.Event>, i: nat, j: nat, window: int, key: string, t: int, u: int)
    requires GossipHistory.InOrder(es) && i < j
    requires AcceptedIn(es, i, window, key, t) && AcceptedIn(es, j, window, key, u)
    ensures u - t > window
  {
    GossipHistory.AcceptancesAreApart(NEW_HANDLER, window, es, i, j, key);
  }

  /** In every run, a node that stays accepts announcements with one key only more than a window apart. */
  lemma AcceptancesInMeshAreApart(steps: seq<Step>, i: nat, j: nat, node: string, window: int, key: string)
    requires CleansWith(steps, node, window) && i < j < |steps| && StaysBetween(steps, node, i, j)
    requires GossipHistory.InOrder(HistoryOf(steps[..j + 1], node))
    requires AcceptsAt(steps, i, node, key) && AcceptsAt(steps, j, node, key)
    ensures steps[j].now - steps[i].now > window
  {
    var first, before := HistoryOf(steps[..i + 1], node), HistoryOf(steps[..j], node);
    var all := HistoryOf(steps[..j + 1], node);
    AcceptanceInHistory(steps, i, node, window, key);
    AcceptanceInHistory(steps, j, node, window, key);
    HistoryGrows(steps, node, i + 1, j);
    NextInHistory(steps, node, j);
    AcceptedInLonger(first, all, |HistoryOf(steps[..i], node)|, window, key, steps[i].now);
    ApartInHistory(all, |HistoryOf(steps[..i], node)|, |before|, window, key, steps[i].now, steps[j].now);
  }

  // ---------------------------------------------------------------------------------------------
  // Conservation of copies
  // ---------------------------------------------------------------------------------------------

  /** Copies that a step puts in flight. */
  function SentBy(m: Mesh, s: Step): nat {
    if !Enabled(m, s) then 0
    else match s
      case BroadcastBy(node, _, _) => Others(m.conns[node], "")
      case Delivered(i, verified, db, now) =>
        var p := m.flying[i];
        if Handle(m.handlers[p.to], p.ann, verified, db, now).forward.Some? then Others(m.conns[p.to], p.from) else 0
      case _ => 0
  }

  /** The number of connections to others than one peer. */
  function Others(peers: seq<string>, except: string): nat {
    if peers == [] then 0 else (if peers[0] == except then 0 else 1) + Others(peers[1..], except)
  }

  lemma {:induction false} CopiesCount(from: string, peers: seq<string>, except: string, a: Announcement)
    ensures |Copies(from, peers, except, a)| == Others(peers, except)
  {
    if peers != [] {
      CopiesCount(from, peers[1..], except, a);
    }
  }

  function TotalSent(steps: seq<Step>): nat {
    if steps == [] then 0
    else TotalSent(steps[..|steps| - 1]) + SentBy(Run(steps[..|steps| - 1]), steps[|steps| - 1])
  }

  function Losses(steps: seq<Step>): nat {
    if steps == [] then 0
    else
      var s := steps[|steps| - 1];
      Losses(steps[..|steps| - 1]) + if s.Lost? && Enabled(Run(steps[..|steps| - 1]), s) then 1 else 0
  }

  /** In every run each copy sent is delivered once, lost once, or still in flight. */
  lemma {:induction false} CopiesAreConserved(steps: seq<Step>)
    ensures TotalSent(steps) == Deliveries(steps) + Losses(steps) + |Run(steps).flying|
  {
    if steps != [] {
      var before, s := steps[..|steps| - 1], steps[|steps| - 1];
      CopiesAreConserved(before);
      if Enabled(Run(before), s) {
        StepConserves(Run(before), s);
      }
    }
  }

  lemma StepConserves(m: Mesh, s: Step)
    requires Enabled(m, s)
    ensures |Next(m, s).flying| + (if s.Delivered? || s.Lost? then 1 else 0) == |m.flying| + SentBy(m, s)
  {
    match s
    case BroadcastBy(node, a, _) => CopiesCount(node, m.conns[node], "", a);
    case Delivered(i, verified, db, now) =>
      var p := m.flying[i];
      var forward := Handle(m.handlers[p.to], p.ann, verified, db, now).forward;
      if forward.Some? {
        CopiesCount(p.to, m.conns[p.to], p.from, forward.value);
      }
    case _ =>
  }
}
