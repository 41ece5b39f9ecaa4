// Whole runs of p2pstate_ex.
module NodeRuns {
  import opened Wrappers
  import opened ConnectionTables
  import opened CommunicationStates
  import opened KBuckets
  import opened NodeStates
  import Backoffs
  import ConnectionRuns
  import KBucketRuns

  datatype Op =
    | OnTable(op: ConnectionRuns.Op)
    | AddContact(peer: string, node: string)
    | RemovePending
    | Filter(nodes: seq<string>)
    | Join(node: string)
    | Drop(node: string)

  datatype View = View(table: Table, contacts: set<Contact>, droped: Backoffs.Dropped)

  const NOTHING := View(map[], {}, map[])

  // What the operation is for the nodes that dropped.
  ghost function EventOf(hash: Digest, self: string, v: View, op: Op): seq<Backoffs.Event> {
    match op
    case Filter(nodes) => [Backoffs.Candidates(nodes, KnownIn(hash, self, v.contacts, nodes))]
    case Join(node) => [Backoffs.Join(node)]
    case Drop(node) => [Backoffs.Drop(node)]
    case _ => []
  }

  ghost function Step(hash: Digest, self: string, v: View, op: Op): View {
    match op
    case OnTable(top) => v.(table := ConnectionRuns.Step(v.table, top))
    case AddContact(peer, node) => v.(contacts := WithContact(hash, self, v.contacts, Contact(node, peer)))
    case RemovePending => v.(table := v.table - Due(v.table), contacts := Cleaned(hash, v.table, v.contacts))
    case _ => v.(droped := Backoffs.Step(v.droped, EventOf(hash, self, v, op)[0]))
  }

  ghost function After(hash: Digest, self: string, ops: seq<Op>): View {
    if ops == [] then NOTHING else Step(hash, self, After(hash, self, ops[..|ops| - 1]), ops[|ops| - 1])
  }

  ghost function Events(hash: Digest, self: string, ops: seq<Op>): seq<Backoffs.Event> {
    if ops == [] then []
    else
      var before := ops[..|ops| - 1];
      Events(hash, self, before) + EventOf(hash, self, After(hash, self, before), ops[|ops| - 1])
  }

  // Only remove_pending of the whole state removes entries, and the rules of
  // the table are kept.
  ghost predicate Allowed(v: View, op: Op) {
    op.OnTable? ==> op.op != ConnectionRuns.RemovePending && ConnectionRuns.Allowed(v.table, op.op)
  }

  ghost predicate AllAllowed(hash: Digest, self: string, ops: seq<Op>) {
    forall i | 0 <= i < |ops| :: Allowed(After(hash, self, ops[..i]), ops[i])
  }

  // Of a whole run, the dropped nodes remember exactly its joins, drops and
  // candidate lists.
  lemma {:induction false} DropedAfter(hash: Digest, self: string, ops: seq<Op>)
    ensures After(hash, self, ops).droped == Backoffs.After(Events(hash, self, ops))
  {
    hide Step, EventOf, Backoffs.After;
    if ops == [] {
      NoEvents();
    } else {
      var before, op := ops[..|ops| - 1], ops[|ops| - 1];
      DropedAfter(hash, self, before);
      DropedStep(hash, self, After(hash, self, before), op, Events(hash, self, before));
    }
  }

  lemma NoEvents()
    ensures Backoffs.After([]) == map[]
  {
  }

  lemma DropedStep(hash: Digest, self: string, v: View, op: Op, past: seq<Backoffs.Event>)
    requires v.droped == Backoffs.After(past)
    ensures Step(hash, self, v, op).droped == Backoffs.After(past + EventOf(hash, self, v, op))
  {
    hide Backoffs.Step, ConnectionRuns.Step;
    var now := EventOf(hash, self, v, op);
    if now == [] {
      assert past + now == past;
    } else {
      assert |now| == 1 && (past + now)[..|past + now| - 1] == past;
    }
  }

  ghost function ViewOf(n: NodeState): View
    reads n, n.program, n.kbucket
    requires AddressesAgree(n.program.View())
  {
    View(n.program.Table(), n.kbucket.Contents(), n.dropedNodes)
  }

  method Do(n: NodeState, op: Op)
    requires n.Valid() && DropsActive(n.program.Table()) && Allowed(ViewOf(n), op)
    modifies n, n.program, n.kbucket
    ensures n.Valid() && DropsActive(n.program.Table())
    ensures ViewOf(n) == Step(n.kbucket.hash, n.self, old(ViewOf(n)), op)
  {
    hide PeersAgree, KeysAgree, ListsAgree, TableOf, KBuckets.Bucketed, DropsActive, AnnouncesDue, Cleaned,
      WithContact, HasNode, KnownIn,
      ConnectionRuns.Allowed, ConnectionRuns.Step, Backed, Due;
    ghost var t := n.program.Table();
    match op
    case OnTable(top) => { ConnectionRuns.Do(n.program, top); }
    case AddContact(peer, node) => { var r := n.AddContact(peer, node); }
    case RemovePending => {
      var notified, drops := n.RemovePending();
      DropsStay(t);
    }
    case Filter(nodes) => { var r := n.FilterIntroduceCandidates(nodes); }
    case Join(node) => { n.ProcessNodeJoin(node); }
    case Drop(node) => { n.ProcessNodeDrop(node); }
  }

  lemma DropsStay(t: Table)
    requires DropsActive(t)
    ensures DropsActive(t - Due(t))
  {
  }

  lemma NothingYet()
    ensures DropsActive(NOTHING.table)
  {
  }

  // Every allowed run leaves what the plain steps say: the back-off entries
  // are those of the run's own events, remove_pending can always be called,
  // and the contacts are within their bounds.
  method Run(hash: Digest, self: string, ops: seq<Op>) returns (n: NodeState)
    requires Bits256(hash) && self != "" && AllAllowed(hash, self, ops)
    ensures n.Valid() && ViewOf(n) == After(hash, self, ops)
    ensures DropsActive(n.program.Table())
    ensures n.dropedNodes == Backoffs.After(Events(hash, self, ops))
    ensures KBucketRuns.Bounded(hash, self, n.kbucket.Contents())
  {
    hide PeersAgree, KeysAgree, ListsAgree, TableOf, KBuckets.Bucketed, DropsActive, KBucketRuns.Bounded, Step, Allowed;
    n := new NodeState(hash, self);
    NothingYet();
    var i := 0;
    while i < |ops|
      invariant i <= |ops| && fresh(n) && fresh(n.program) && fresh(n.kbucket)
      invariant n.Valid() && DropsActive(n.program.Table()) && n.self == self && n.kbucket.hash == hash
      invariant ViewOf(n) == After(hash, self, ops[..i])
    {
      Do(n, ops[i]);
      assert ops[..i + 1][..i] == ops[..i];
      i := i + 1;
    }
    assert ops[..i] == ops;
    DropedAfter(hash, self, ops);
    KBucketRuns.BucketedIsBounded(hash, self, n.kbucket.contacts);
  }

  // After any run that ends in the k-th drop in a row of a node, the state
  // skips exactly 10^min(k-1, 12) occurrences of it as a candidate.
  lemma RunSkips(hash: Digest, self: string, ops: seq<Op>, node: string, nodes: seq<string>)
    requires node != "" && !Backoffs.IsWaiting(Backoffs.HistoryOf(Events(hash, self, ops), node))
    requires node !in KnownIn(hash, self, After(hash, self, ops).contacts, nodes)
    ensures var k := Backoffs.HistoryOf(Events(hash, self, ops), node).drops + 1;
            var v := After(hash, self, ops + [Drop(node)]);
            var through := Backoffs.LetThrough(v.droped, nodes, KnownIn(hash, self, v.contacts, nodes));
            Backoffs.Count(through, node) == SkippedOf(Backoffs.Count(nodes, node), k)
  {
    hide Backoffs.HistoryOf, Backoffs.IsWaiting, Backoffs.LetThrough, Backoffs.After, Backoffs.Count, KnownIn, After,
      Events;
    var all := ops + [Drop(node)];
    DropedAfter(hash, self, all);
    DropLast(hash, self, ops, node);
    Backoffs.SkippedExactly(Events(hash, self, ops), nodes,
      KnownIn(hash, self, After(hash, self, all).contacts, nodes), node);
  }

  lemma DropLast(hash: Digest, self: string, ops: seq<Op>, node: string)
    ensures var all := ops + [Drop(node)];
      && After(hash, self, all).contacts == After(hash, self, ops).contacts
      && Events(hash, self, all) == Events(hash, self, ops) + [Backoffs.Drop(node)]
  {
    hide Backoffs.Step;
    var all := ops + [Drop(node)];
    assert all[..|all| - 1] == ops;
  }

  // Of m occurrences, those that pass after the k-th drop.
  function SkippedOf(m: nat, k: nat): nat
    requires k > 0
  {
    if m <= Backoffs.Skips(k) then 0 else m - Backoffs.Skips(k)
  }
}
