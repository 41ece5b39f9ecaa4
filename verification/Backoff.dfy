// How a dropped node is kept from being introduced again: each drop in a row
// makes it wait ten times longer.
module Backoffs {
  import opened Radix

  // An entry of droped_nodes: how many candidates to skip, and how many have
  // been skipped.
  datatype Wait = Wait(limit: nat, counter: nat)

  type Dropped = map<string, Wait>

  const TOP: nat := 1000000000000

  function WithJoin(d: Dropped, node: string): Dropped {
    if node == "" then d else d - {node}
  }

  function WithDrop(d: Dropped, node: string): Dropped {
    if node == "" then d
    else if node !in d then d[node := Wait(1, 0)]
    else if d[node].counter < d[node].limit then d
    else d[node := Wait(if d[node].limit < TOP then d[node].limit * 10 else d[node].limit, 0)]
  }

  predicate IsSkipped(d: Dropped, node: string) {
    node in d && d[node].counter < d[node].limit
  }

  function WithTry(d: Dropped, node: string): Dropped {
    if IsSkipped(d, node) then d[node := d[node].(counter := d[node].counter + 1)] else d
  }

  // The entries after a list of candidates; those in known are passed over.
  function WithTries(d: Dropped, nodes: seq<string>, known: set<string>): Dropped {
    if nodes == [] then d
    else
      var before := WithTries(d, nodes[..|nodes| - 1], known);
      var node := nodes[|nodes| - 1];
      if node in known then before else WithTry(before, node)
  }

  // The candidates let through, in order.
  function LetThrough(d: Dropped, nodes: seq<string>, known: set<string>): seq<string> {
    if nodes == [] then []
    else
      var rest, node := nodes[..|nodes| - 1], nodes[|nodes| - 1];
      LetThrough(d, rest, known)
      + if node in known || IsSkipped(WithTries(d, rest, known), node) then [] else [node]
  }

  datatype Event =
    | Join(node: string)
    | Drop(node: string)
    | Candidates(nodes: seq<string>, known: set<string>)

  function Step(d: Dropped, e: Event): Dropped {
    match e
    case Join(node) => WithJoin(d, node)
    case Drop(node) => WithDrop(d, node)
    case Candidates(nodes, known) => WithTries(d, nodes, known)
  }

  function After(events: seq<Event>): Dropped {
    if events == [] then map[] else Step(After(events[..|events| - 1]), events[|events| - 1])
  }

  // --- The life of one node ---

  // Drops that took effect since the node last joined, and candidate
  // occurrences of the node since the last of those.
  datatype History = History(drops: nat, tries: nat)

  // What the k-th drop in a row costs.
  function Skips(k: nat): nat
    requires k > 0
  {
    Pow(10, if k - 1 < 12 then k - 1 else 12)
  }

  // A drop takes effect when the node is not already being kept waiting.
  predicate IsWaiting(h: History) {
    h.drops > 0 && h.tries < Skips(h.drops)
  }

  function Count(nodes: seq<string>, node: string): nat {
    if nodes == [] then 0
    else Count(nodes[..|nodes| - 1], node) + if nodes[|nodes| - 1] == node then 1 else 0
  }

  function Next(h: History, e: Event, node: string): History {
    match e
    case Join(n) => if n == node then History(0, 0) else h
    case Drop(n) => if n != node || IsWaiting(h) then h else History(h.drops + 1, 0)
    case Candidates(nodes, known) => if node in known then h else h.(tries := h.tries + Count(nodes, node))
  }

  function HistoryOf(events: seq<Event>, node: string): History {
    if events == [] then History(0, 0)
    else Next(HistoryOf(events[..|events| - 1], node), events[|events| - 1], node)
  }

  function Min(a: nat, b: nat): nat {
    if a < b then a else b
  }

  // The entry that the history accounts for.
  ghost predicate Tells(h: History, d: Dropped, node: string) {
    if h.drops == 0 then node !in d
    else node in d && d[node] == Wait(Skips(h.drops), Min(h.tries, Skips(h.drops)))
  }

  // Of m more occurrences, those beyond the first Skips(drops) pass.
  function Passed(h: History, m: nat): nat {
    if h.drops == 0 then m
    else if h.tries >= Skips(h.drops) then m
    else if h.tries + m <= Skips(h.drops) then 0
    else h.tries + m - Skips(h.drops)
  }

  lemma SkipsNext(k: nat)
    requires k > 0
    ensures 0 < Skips(k) <= TOP
    ensures Skips(k + 1) == if Skips(k) < TOP then Skips(k) * 10 else Skips(k)
  {
    assert Pow(10, 12) == TOP;
    PowPositive(10, if k - 1 < 12 then k - 1 else 12);
    if k - 1 < 12 {
      PowMonoExp(10, k - 1, 12);
    }
  }

  lemma JoinTold(h: History, d: Dropped, n: string, node: string)
    requires node != "" && Tells(h, d, node)
    ensures Tells(Next(h, Join(n), node), WithJoin(d, n), node)
  {
  }

  lemma DropTold(h: History, d: Dropped, n: string, node: string)
    requires node != "" && Tells(h, d, node)
    ensures Tells(Next(h, Drop(n), node), WithDrop(d, n), node)
  {
    hide Skips;
    if h.drops > 0 {
      SkipsNext(h.drops);
    }
    assert Skips(1) == 1 by { SkipsOne(); }
  }

  lemma SkipsOne()
    ensures Skips(1) == 1
  {
  }

  lemma {:induction false} TriesTold(h: History, d: Dropped, nodes: seq<string>, known: set<string>, node: string)
    requires node !in known && Tells(h, d, node)
    ensures Tells(h.(tries := h.tries + Count(nodes, node)), WithTries(d, nodes, known), node)
    ensures Count(LetThrough(d, nodes, known), node) == Passed(h, Count(nodes, node))
  {
    hide Skips;
    if nodes != [] {
      var rest, last := nodes[..|nodes| - 1], nodes[|nodes| - 1];
      TriesTold(h, d, rest, known, node);
      var r := LetThrough(d, rest, known);
      assert (r + [last])[..|r|] == r && r + [] == r;
    }
  }

  lemma {:induction false} KnownPassedOver(d: Dropped, nodes: seq<string>, known: set<string>, node: string)
    requires node in known
    ensures (node in WithTries(d, nodes, known) <==> node in d)
      && (node in d ==> WithTries(d, nodes, known)[node] == d[node])
    ensures Count(LetThrough(d, nodes, known), node) == 0
  {
    if nodes != [] {
      var rest, last := nodes[..|nodes| - 1], nodes[|nodes| - 1];
      KnownPassedOver(d, rest, known, node);
      var r := LetThrough(d, rest, known);
      assert (r + [last])[..|r|] == r && r + [] == r;
    }
  }

  // Only candidates are let through, and none that is known.
  lemma {:induction false} LetThroughFrom(d: Dropped, nodes: seq<string>, known: set<string>)
    ensures forall n | n in LetThrough(d, nodes, known) :: n in nodes && n !in known
  {
    if nodes != [] {
      LetThroughFrom(d, nodes[..|nodes| - 1], known);
      assert nodes == nodes[..|nodes| - 1] + [nodes[|nodes| - 1]];
    }
  }

  // They are let through in the order of the list.
  lemma {:induction false} LetThroughOrder(d: Dropped, nodes: seq<string>, known: set<string>) returns (at: seq<nat>)
    ensures |at| == |LetThrough(d, nodes, known)|
    ensures forall i | 0 <= i < |at| :: at[i] < |nodes| && nodes[at[i]] == LetThrough(d, nodes, known)[i]
    ensures forall i, j | 0 <= i < j < |at| :: at[i] < at[j]
  {
    at := [];
    if nodes != [] {
      var n := |nodes| - 1;
      at := LetThroughOrder(d, nodes[..n], known);
      if |LetThrough(d, nodes, known)| > |at| {
        at := at + [n];
      }
    }
  }

  // Whatever happens to all the nodes, in whatever order, a node's entry is
  // told by its own history.
  lemma {:induction false} BackoffRun(events: seq<Event>, node: string)
    requires node != ""
    ensures Tells(HistoryOf(events, node), After(events), node)
  {
    hide Skips, Tells;
    if events == [] {
      NothingTold(node);
    } else {
      var before, e := events[..|events| - 1], events[|events| - 1];
      BackoffRun(before, node);
      var h, d := HistoryOf(before, node), After(before);
      match e
      case Join(n) => JoinTold(h, d, n, node);
      case Drop(n) => DropTold(h, d, n, node);
      case Candidates(nodes, known) => CandidatesTold(h, d, nodes, known, node);
    }
  }

  lemma NothingTold(node: string)
    ensures Tells(History(0, 0), map[], node)
  {
  }

  lemma CandidatesTold(h: History, d: Dropped, nodes: seq<string>, known: set<string>, node: string)
    requires Tells(h, d, node)
    ensures Tells(Next(h, Candidates(nodes, known), node), WithTries(d, nodes, known), node)
    ensures Count(LetThrough(d, nodes, known), node) == if node in known then 0 else Passed(h, Count(nodes, node))
  {
    if node in known {
      KnownPassedOver(d, nodes, known, node);
    } else {
      TriesTold(h, d, nodes, known, node);
    }
  }

  // How often a node is let through by the next list, after any run.
  lemma LetThroughAfter(events: seq<Event>, nodes: seq<string>, known: set<string>, node: string)
    requires node != ""
    ensures Count(LetThrough(After(events), nodes, known), node) ==
            if node in known then 0 else Passed(HistoryOf(events, node), Count(nodes, node))
  {
    BackoffRun(events, node);
    CandidatesTold(HistoryOf(events, node), After(events), nodes, known, node);
  }

  // After the k-th drop in a row, exactly 10^min(k-1, 12) occurrences of the
  // node are skipped before one is let through.
  lemma SkippedExactly(events: seq<Event>, nodes: seq<string>, known: set<string>, node: string)
    requires node != "" && node !in known
    requires !IsWaiting(HistoryOf(events, node))
    ensures var k := HistoryOf(events, node).drops + 1;
            var after := After(events + [Drop(node)]);
            && (Count(nodes, node) <= Pow(10, Min(k - 1, 12)) ==> Count(LetThrough(after, nodes, known), node) == 0)
            && (Count(nodes, node) > Pow(10, Min(k - 1, 12)) ==>
                Count(LetThrough(after, nodes, known), node) == Count(nodes, node) - Pow(10, Min(k - 1, 12)))
  {
    hide Pow, Tells, LetThrough, Count;
    var now := events + [Drop(node)];
    assert now[..|now| - 1] == events;
    LetThroughAfter(now, nodes, known, node);
  }

  lemma {:induction false} NeverEmpty(events: seq<Event>)
    ensures "" !in After(events)
  {
    if events != [] {
      var before, e := events[..|events| - 1], events[|events| - 1];
      NeverEmpty(before);
      if e.Candidates? {
        NoEmptyTry(After(before), e.nodes, e.known);
      }
    }
  }

  lemma {:induction false} NoEmptyTry(d: Dropped, nodes: seq<string>, known: set<string>)
    requires "" !in d
    ensures "" !in WithTries(d, nodes, known)
  {
    if nodes != [] {
      NoEmptyTry(d, nodes[..|nodes| - 1], known);
    }
  }

  // In every reachable state: limits are powers of ten up to 10^12 and no
  // counter passes its limit.
  lemma EntriesBounded(events: seq<Event>, node: string)
    requires node in After(events)
    ensures exists e: nat :: e <= 12 && After(events)[node].limit == Pow(10, e)
    ensures After(events)[node].counter <= After(events)[node].limit <= TOP
  {
    hide Pow;
    NeverEmpty(events);
    BackoffRun(events, node);
    var k := HistoryOf(events, node).drops;
    SkipsNext(k);
    assert After(events)[node].limit == Pow(10, Min(k - 1, 12));
  }
}
