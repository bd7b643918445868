/**
 Overlapping receipts at one gossip node (`HandleAnnouncement` in internal/mesh/gossip.go): the code
 looks for the mark of an announcement under one lock and sets it under another, so that other
 receipts, broadcasts and cleaner ticks may come between.
 */
module GossipInterleaved {
  import opened Common
  import opened Gossip

  /** `pending` are the announcements that got past the checks and are not marked yet. */
  datatype Node = Node(handler: Handler, pending: seq<Announcement>, forwarded: seq<Announcement>)

  datatype Step =
    | Check(ann: Announcement, verified: bool, at: int)
    | Mark(receipt: nat, db: Db, at: int)
    | Broadcast(ann: Announcement, at: int)
    | CleanerTick(at: int)

  function Do(n: Node, window: int, s: Step): Node {
    match s
    case Check(a, verified, _) =>
      if Accepts(n.handler, a, verified) then n.(pending := n.pending + [a]) else n
    case Mark(r, db, at) =>
      if r >= |n.pending| then n
      else
        var out := Process(n.handler, n.pending[r], db, at);
        Node(out.handler, n.pending[..r] + n.pending[r + 1..],
             n.forwarded + if out.forward.Some? then [out.forward.value] else [])
    case Broadcast(a, at) => n.(handler := Broadcasted(n.handler, a, at))
    case CleanerTick(at) => n.(handler := Cleaned(n.handler, window, at))
  }

  function Run(n: Node, window: int, ss: seq<Step>): Node {
    if ss == [] then n else Do(Run(n, window, ss[..|ss| - 1]), window, ss[|ss| - 1])
  }

  predicate InOrder(ss: seq<Step>) {
    forall i, j :: 0 <= i < j < |ss| ==> ss[i].at <= ss[j].at
  }

  lemma RunStep(n: Node, window: int, ss: seq<Step>, i: nat)
    requires i < |ss|
    ensures Run(n, window, ss[..i + 1]) == Do(Run(n, window, ss[..i]), window, ss[i])
  {
    assert ss[..i + 1][..i] == ss[..i];
  }

  /** Step i is a check for an announcement with this key that nothing but a mark would stop. */
  predicate ChecksAt(ss: seq<Step>, i: nat, key: string)
    requires i < |ss|
  {
    ss[i].Check? && DedupKey(ss[i].ann) == key && Accepts(Handler(map[], map[]), ss[i].ann, ss[i].verified)
  }

  /** Step i lets an announcement with this key past the checks. */
  predicate PassesAt(n: Node, window: int, ss: seq<Step>, i: nat, key: string)
    requires i < |ss|
  {
    ss[i].Check? && DedupKey(ss[i].ann) == key && Accepts(Run(n, window, ss[..i]).handler, ss[i].ann, ss[i].verified)
  }

  /** The step sets the mark of this key: for a receipt, or by a local broadcast. */
  predicate Marks(n: Node, s: Step, key: string) {
    || (s.Broadcast? && BroadcastKey(s.ann) == key)
    || (s.Mark? && s.receipt < |n.pending| && DedupKey(n.pending[s.receipt]) == key)
  }

  predicate MarksAt(n: Node, window: int, ss: seq<Step>, i: nat, key: string)
    requires i < |ss|
  {
    Marks(Run(n, window, ss[..i]), ss[i], key)
  }

  // ---------------------------------------------------------------------------------------------
  // The mark of one key
  // ---------------------------------------------------------------------------------------------

  /** What a step means for one key: when it comes, whether it marks the key, whether it cleans. */
  datatype Touch = Touch(at: int, marks: bool, cleans: bool)

  function AfterTouch(mark: Option<int>, t: Touch, window: int): Option<int> {
    if t.marks then Some(t.at)
    else if t.cleans && mark.Some? && mark.value < t.at - window then None
    else mark
  }

  /** When the key was last marked, if it is. */
  function MarkOf(n: Node, key: string): Option<int> {
    if key in n.handler.seen then Some(n.handler.seen[key]) else None
  }

  lemma StepOnMark(n: Node, window: int, s: Step, key: string)
    ensures MarkOf(Do(n, window, s), key)
            == AfterTouch(MarkOf(n, key), Touch(s.at, Marks(n, s, key), s.CleanerTick?), window)
  {
    match s
    case Check(_, _, _) =>
    case Mark(r, db, at) =>
      if r < |n.pending| {
        assert Process(n.handler, n.pending[r], db, at).handler.seen
            == n.handler.seen[DedupKey(n.pending[r]) := at];
      }
    case Broadcast(_, _) =>
    case CleanerTick(_) =>
  }

  /** The marks of a key along a run. */
  ghost predicate Follows(marks: seq<Option<int>>, ts: seq<Touch>, window: int) {
    |marks| == |ts| + 1 && forall j :: 0 <= j < |ts| ==> marks[j + 1] == AfterTouch(marks[j], ts[j], window)
  }

  lemma MarksOfRun(n: Node, window: int, ss: seq<Step>, key: string) returns (marks: seq<Option<int>>, ts: seq<Touch>)
    ensures |ts| == |ss| && Follows(marks, ts, window)
    ensures forall j :: 0 <= j <= |ss| ==> marks[j] == MarkOf(Run(n, window, ss[..j]), key)
    ensures forall j :: 0 <= j < |ss| ==> ts[j].at == ss[j].at && ts[j].marks == MarksAt(n, window, ss, j, key)
  {
    marks := seq(|ss| + 1, j requires 0 <= j <= |ss| => MarkOf(Run(n, window, ss[..j]), key));
    ts := seq(|ss|, j requires 0 <= j < |ss| =>
                Touch(ss[j].at, MarksAt(n, window, ss, j, key), ss[j].CleanerTick?));
    forall j | 0 <= j < |ss|
      ensures marks[j + 1] == AfterTouch(marks[j], ts[j], window)
    {
      RunStep(n, window, ss, j);
      StepOnMark(Run(n, window, ss[..j]), window, ss[j], key);
    }
  }

  /** A mark lasts, or is refreshed, until something happens more than a window later. */
  lemma {:induction false} MarkLasts(marks: seq<Option<int>>, ts: seq<Touch>, window: int, m: nat, i: nat)
    requires Follows(marks, ts, window) && m < i <= |ts| && ts[m].marks
    requires forall a, b :: 0 <= a < b < |ts| ==> ts[a].at <= ts[b].at
    ensures ts[i - 1].at - ts[m].at > window || (marks[i].Some? && marks[i].value >= ts[m].at)
  {
    assert marks[i - 1 + 1] == AfterTouch(marks[i - 1], ts[i - 1], window);
    if i > m + 1 {
      MarkLasts(marks, ts, window, m, i - 1);
      assert ts[m].at <= ts[i - 2].at <= ts[i - 1].at;
    }
  }

  /** Without a mark in between, a key that was not marked is not marked. */
  lemma {:induction false} StaysUnmarked(marks: seq<Option<int>>, ts: seq<Touch>, window: int, c: nat, i: nat)
    requires Follows(marks, ts, window) && c <= i <= |ts| && marks[c].None?
    requires forall m :: c <= m < i ==> !ts[m].marks
    ensures marks[i].None?
  {
    if i > c {
      StaysUnmarked(marks, ts, window, c, i - 1);
      assert marks[i - 1 + 1] == AfterTouch(marks[i - 1], ts[i - 1], window);
    }
  }

  // ---------------------------------------------------------------------------------------------
  // Which checks pass
  // ---------------------------------------------------------------------------------------------

  /** Overlapping or not, a check that passes comes more than a window after every mark before it. */
  lemma PassesAreApartFromMarks(n: Node, window: int, ss: seq<Step>, mark: nat, check: nat, key: string)
    requires InOrder(ss) && mark < check < |ss|
    requires MarksAt(n, window, ss, mark, key) && PassesAt(n, window, ss, check, key)
    ensures ss[check].at - ss[mark].at > window
  {
    var marks, ts := MarksOfRun(n, window, ss, key);
    MarkLasts(marks, ts, window, mark, check);
    assert ss[check - 1].at <= ss[check].at;
  }

  /**
   In every run: of two checks for one key, of which the first passes, the second passes too, within
   the window of the first mark set after the first check, exactly if it comes before that mark.
   */
  lemma SecondPassesIff(n: Node, window: int, ss: seq<Step>, first: nat, second: nat, mark: nat, key: string)
    requires InOrder(ss) && first < second < |ss| && first < mark < |ss|
    requires PassesAt(n, window, ss, first, key) && ChecksAt(ss, second, key)
    requires MarksAt(n, window, ss, mark, key)
    requires forall m :: first < m < mark ==> !MarksAt(n, window, ss, m, key)
    requires ss[second].at - ss[mark].at <= window
    ensures PassesAt(n, window, ss, second, key) <==> second < mark
  {
    if second < mark {
      var marks, ts := MarksOfRun(n, window, ss, key);
      assert !MarksAt(n, window, ss, first, key);
      StaysUnmarked(marks, ts, window, first, second);
    } else if PassesAt(n, window, ss, second, key) {
      assert second != mark;
      PassesAreApartFromMarks(n, window, ss, mark, second, key);
    }
  }

  /** A receipt whose mark follows its check at once is handled as the atomic model says. */
  lemma CheckThenMarkIsHandle(n: Node, window: int, a: Announcement, verified: bool, db: Db, at: int)
    ensures var checked := Do(n, window, Check(a, verified, at));
            var marked := Do(checked, window, Mark(|n.pending|, db, at));
            && marked.handler == Handle(n.handler, a, verified, db, at).handler
            && marked.pending == n.pending
            && (Handle(n.handler, a, verified, db, at).forward.Some? ==>
                  marked.forwarded == n.forwarded + [Handle(n.handler, a, verified, db, at).forward.value])
  {
    if Accepts(n.handler, a, verified) {
      var pending := n.pending + [a];
      assert pending[..|n.pending|] + pending[|n.pending| + 1..] == n.pending;
    }
  }

  /** Two receipts of one announcement, both checked before either is marked. */
  function Overlap(a: Announcement, db: Db, at: int): seq<Step> {
    [Check(a, true, at), Check(a, true, at), Mark(0, db, at), Mark(0, db, at)]
  }

  /** Two overlapping receipts of one announcement are both accepted and both passed on. */
  lemma OverlappingReceiptsBothPass(n: Node, window: int, a: Announcement, db: Db, at: int)
    requires n.pending == [] && Accepts(n.handler, a, true) && (IsAgentKind(a.kind) ==> a.action == "register")
    ensures PassesAt(n, window, Overlap(a, db, at), 0, DedupKey(a))
    ensures PassesAt(n, window, Overlap(a, db, at), 1, DedupKey(a))
    ensures Run(n, window, Overlap(a, db, at)).forwarded == n.forwarded + [OneHopFurther(a), OneHopFurther(a)]
  {
    BothChecked(n, window, a, db, at);
    LastTwo(n, window, a, db, at);
    BothMarked(n.(pending := [a, a]), window, a, db, at);
  }

  lemma LastTwo(n: Node, window: int, a: Announcement, db: Db, at: int)
    ensures var ss := Overlap(a, db, at);
            Run(n, window, ss) == Do(Do(Run(n, window, ss[..2]), window, Mark(0, db, at)), window, Mark(0, db, at))
  {
    var ss := Overlap(a, db, at);
    RunStep(n, window, ss, 2);
    RunStep(n, window, ss, 3);
    assert ss[..4] == ss;
  }

  function OneHopFurther(a: Announcement): Announcement {
    a.(hopCount := a.hopCount + 1)
  }

  lemma BothMarked(n: Node, window: int, a: Announcement, db: Db, at: int)
    requires n.pending == [a, a] && (IsAgentKind(a.kind) ==> a.action == "register")
    ensures Do(Do(n, window, Mark(0, db, at)), window, Mark(0, db, at)).forwarded
            == n.forwarded + [OneHopFurther(a), OneHopFurther(a)]
  {
    FirstIsMarked(n, window, a, db, at);
    FirstIsMarked(Do(n, window, Mark(0, db, at)), window, a, db, at);
  }

  lemma BothChecked(n: Node, window: int, a: Announcement, db: Db, at: int)
    requires n.pending == [] && Accepts(n.handler, a, true)
    ensures Run(n, window, Overlap(a, db, at)[..0]) == n
    ensures Run(n, window, Overlap(a, db, at)[..1]) == n.(pending := [a])
    ensures Run(n, window, Overlap(a, db, at)[..2]) == n.(pending := [a, a])
  {
    var ss := Overlap(a, db, at);
    assert ss[..0] == [];
    RunStep(n, window, ss, 0);
    RunStep(n, window, ss, 1);
  }

  lemma FirstIsMarked(n: Node, window: int, a: Announcement, db: Db, at: int)
    requires n.pending != [] && n.pending[0] == a && (IsAgentKind(a.kind) ==> a.action == "register")
    ensures var marked := Do(n, window, Mark(0, db, at));
            && marked.pending == n.pending[1..]
            && marked.forwarded == n.forwarded + [OneHopFurther(a)]
  {}
}
