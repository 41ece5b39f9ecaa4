// p2pstate_ex: the connection table, the contacts and the nodes that dropped.
module NodeStates {
  import opened Wrappers
  import opened Radix
  import opened ConnectionTables
  import opened CommunicationStates
  import ConnectionRuns
  import opened XorDistance
  import opened KBuckets
  import opened Backoffs

  datatype ContactStatus = NoContact | NewContact | ExistingContact

  // A table entry that has the contact's node id stands behind the contact.
  ghost predicate Backed(t: Table, contacts: set<Contact>) {
    forall c | c in contacts :: exists d :: d in t && t[d].value.nodeId == c.node != ""
  }

  ghost function RemovedAll(hash: Digest, s: set<Contact>, notified: seq<(string, bool)>): set<Contact> {
    set c | c in s && forall n | n in notified :: Id(hash, c.node) != Id(hash, n.0)
  }

  // The index that the node belongs to holds K contacts.
  ghost predicate IsFull(hash: Digest, self: string, s: set<Contact>, node: string) {
    |AtIndex(hash, self, s, Index(Dist(hash, self, Contact(node, ""))))| >= K
  }

  // Taking the due entries' nodes out of the contacts leaves no contact
  // without an entry.
  lemma StaysBacked(hash: Digest, t: Table, s: set<Contact>, notified: seq<(string, bool)>, drops: seq<PeerId>)
    requires Backed(t, s) && AnnouncesDue(t, notified, drops)
    ensures Backed(t - Due(t), RemovedAll(hash, s, notified))
  {
    hide Id;
    forall c | c in RemovedAll(hash, s, notified)
      ensures exists d :: d in t - Due(t) && (t - Due(t))[d].value.nodeId == c.node != ""
    {
      var d :| d in t && t[d].value.nodeId == c.node != "";
      var n := (t[d].value.nodeId, if t[d].removal.Some? then t[d].removal.value.mustNotify else false);
      assert d in Due(t) ==> d in NamingIn(t, n);
      assert n !in notified ==> multiset(notified)[n] == 0;
      assert d in t - Due(t);
    }
  }

  // What is left of the contacts when the due entries of t go.
  ghost function Cleaned(hash: Digest, t: Table, s: set<Contact>): set<Contact> {
    set c | c in s && forall d | d in Due(t) && t[d].value.nodeId != "" ::
      Id(hash, c.node) != Id(hash, t[d].value.nodeId)
  }

  lemma RemovedIsCleaned(hash: Digest, t: Table, s: set<Contact>, notified: seq<(string, bool)>, drops: seq<PeerId>)
    requires AnnouncesDue(t, notified, drops)
    ensures RemovedAll(hash, s, notified) == Cleaned(hash, t, s)
  {
    hide Id;
    forall d | d in Due(t) && t[d].value.nodeId != ""
      ensures (t[d].value.nodeId, t[d].removal.value.mustNotify) in notified
    {
      var n := (t[d].value.nodeId, t[d].removal.value.mustNotify);
      assert d in NamingIn(t, n);
      assert multiset(notified)[n] > 0;
    }
    forall n | n in notified ensures exists d :: d in Due(t) && t[d].value.nodeId == n.0 != "" {
      assert multiset(notified)[n] > 0;
      var d :| d in NamingIn(t, n);
    }
  }

  // The operation gives entry d another node id, or removes it.
  predicate Overwrites(t: Table, op: ConnectionRuns.Op, d: Destination) {
    d in t &&
    match op
    case AddPassive(address, _) => address.Key() == d && Replaceable(t, d)
    case AddActive(address, _, _) => address.Key() == d
    case SetActiveValue(peer, _) => t[d].peer == Some(peer)
    case SetValue(address, _) => address.Key() == d
    case RemovePending => t[d].IsDue()
    case _ => false
  }

  function NewId(op: ConnectionRuns.Op): Option<string> {
    match op
    case AddPassive(_, value) => Some(value.nodeId)
    case AddActive(_, _, value) => Some(value.nodeId)
    case SetActiveValue(_, value) => Some(value.nodeId)
    case SetValue(_, value) => Some(value.nodeId)
    case _ => None
  }

  // Every entry behind some contact is overwritten, with another node id.
  ghost predicate Unbacks(t: Table, s: set<Contact>, op: ConnectionRuns.Op) {
    exists c :: c in s && NewId(op) != Some(c.node) && forall d | d in t && t[d].value.nodeId == c.node ::
      Overwrites(t, op, d)
  }

  // The effect of an operation on the node ids.
  lemma NodeIdsAfter(t: Table, op: ConnectionRuns.Op, d: Destination)
    ensures var u := ConnectionRuns.Step(t, op);
      && (d in t && !Overwrites(t, op, d) ==> d in u && u[d].value.nodeId == t[d].value.nodeId)
      && (d in u && (d !in t || Overwrites(t, op, d)) ==> NewId(op) == Some(u[d].value.nodeId))
      && (d in t && Overwrites(t, op, d) && NewId(op).Some? ==> d in u && u[d].value.nodeId == NewId(op).value)
  {
  }

  // Exactly such an operation on the table alone leaves a contact without an
  // entry. add_active does so when it resets the node id of a contact's only
  // entry.
  lemma BackedStep(t: Table, s: set<Contact>, op: ConnectionRuns.Op)
    requires Backed(t, s)
    ensures Backed(ConnectionRuns.Step(t, op), s) <==> !Unbacks(t, s, op)
  {
    hide Overwrites, NewId, ConnectionRuns.Step;
    var u := ConnectionRuns.Step(t, op);
    if Backed(u, s) {
      forall c | c in s && NewId(op) != Some(c.node)
        ensures exists d :: d in t && t[d].value.nodeId == c.node && !Overwrites(t, op, d)
      {
        var d :| d in u && u[d].value.nodeId == c.node != "";
        NodeIdsAfter(t, op, d);
      }
    }
    if !Unbacks(t, s, op) {
      forall c | c in s ensures exists d :: d in u && u[d].value.nodeId == c.node != "" {
        StillBacked(t, s, op, c);
      }
    }
  }

  lemma StillBacked(t: Table, s: set<Contact>, op: ConnectionRuns.Op, c: Contact)
    requires Backed(t, s) && !Unbacks(t, s, op) && c in s
    ensures exists d :: d in ConnectionRuns.Step(t, op) && ConnectionRuns.Step(t, op)[d].value.nodeId == c.node != ""
  {
    hide Overwrites, NewId, ConnectionRuns.Step;
    if NewId(op) == Some(c.node) {
      var d :| d in t && t[d].value.nodeId == c.node != "";
      NodeIdsAfter(t, op, d);
    } else {
      var d :| d in t && t[d].value.nodeId == c.node && !Overwrites(t, op, d);
      NodeIdsAfter(t, op, d);
    }
  }

  // Adding a contact keeps the property exactly if some entry has its node id.
  lemma BackedContact(hash: Digest, self: string, t: Table, s: set<Contact>, c: Contact)
    requires Backed(t, s)
    ensures Backed(t, WithContact(hash, self, s, c)) <==>
            !Accepts(hash, self, s, c) || exists d :: d in t && t[d].value.nodeId == c.node != ""
  {
    hide Accepts;
  }

  // The nodes that are not candidates: this one and its contacts.
  ghost function KnownIn(hash: Digest, self: string, s: set<Contact>, nodes: seq<string>): set<string> {
    set n | n in nodes && (n == self || HasNode(hash, s, n))
  }

  lemma {:induction false} RemovedStep(hash: Digest, s: set<Contact>, notified: seq<(string, bool)>, i: nat)
    requires i < |notified|
    ensures RemovedAll(hash, s, notified[..i + 1]) ==
      WithoutNode(hash, RemovedAll(hash, s, notified[..i]), notified[i].0)
  {
    hide Id;
    assert notified[..i + 1] == notified[..i] + [notified[i]];
  }

  class NodeState {
    const self: string
    const program: CommunicationState
    const kbucket: KBucket
    var dropedNodes: Dropped

    ghost predicate Valid()
      reads this, program, kbucket
    {
      program.Valid() && kbucket.Valid() && kbucket.origin.node == self != ""
    }

    constructor (hash: Digest, self: string)
      requires Bits256(hash) && self != ""
      ensures Valid() && fresh(program) && fresh(kbucket) && this.self == self && kbucket.hash == hash
      ensures program.Table() == map[] && kbucket.contacts == [] && dropedNodes == map[]
    {
      this.self := self;
      program := new CommunicationState();
      kbucket := new KBucket(hash, Contact(self, ""));
      dropedNodes := map[];
    }

    // Whether the node is among the contacts, and if not, whether it could be
    // added: no_contact is the answer exactly for a full index.
    method AddContact(peer: string, node: string) returns (r: Result<ContactStatus>)
      requires Valid()
      modifies kbucket
      ensures Valid()
      ensures var hash, known := kbucket.hash, old(kbucket.Contents());
              && (r.Thrown? <==> Id(hash, node) == Id(hash, self))
              && (r == Ok(ExistingContact) <==> HasNode(hash, known, node))
              && (r == Ok(NoContact) <==> (!HasNode(hash, known, node) && Id(hash, node) != Id(hash, self)
                && IsFull(hash, self, known, node)))
              && kbucket.Contents() == (if r == Ok(NewContact) then known + {Contact(node, peer)} else known)
              && kbucket.Contents() == WithContact(hash, self, known, Contact(node, peer))
    {
      hide KBuckets.Bucketed, Index;
      var k := Contact(node, peer);
      OriginAbsent(node);
      var at := kbucket.Find(node);
      if at != |kbucket.contacts| {
        return Ok(ExistingContact);
      }
      var inserted := kbucket.Insert(k);
      if inserted.Thrown? {
        return Thrown;
      }
      r := Ok(if inserted.value then NewContact else NoContact);
    }

    // This node is never among its own contacts.
    lemma OriginAbsent(node: string)
      requires Valid()
      ensures Id(kbucket.hash, node) == Id(kbucket.hash, self) ==> !HasNode(kbucket.hash, kbucket.Contents(), node)
    {
      hide Xor, Slot;
      var ds := Dists(kbucket.hash, self, kbucket.contacts);
      forall c | c in kbucket.Contents() ensures Id(kbucket.hash, c.node) != Id(kbucket.hash, self) {
        var i: nat :| i < |kbucket.contacts| && kbucket.contacts[i] == c;
        assert ds[i] > 0;
        ZeroIffEqual(Id(kbucket.hash, self), Id(kbucket.hash, c.node));
      }
    }

    // get_peer_id and process_introduce_request
    method PeerOfNode(node: string) returns (r: Option<string>)
      requires Valid()
      ensures r.None? <==> !HasNode(kbucket.hash, kbucket.Contents(), node)
      ensures r.Some? ==> exists c ::
        c in kbucket.Contents() && Id(kbucket.hash, c.node) == Id(kbucket.hash, node) && c.peer == r.value
    {
      hide KBuckets.Bucketed;
      var it := kbucket.Find(node);
      if it == |kbucket.contacts| {
        return None;
      }
      var c := kbucket.contacts[it];
      assert c in kbucket.Contents();
      r := Some(c.peer);
    }

    // Removes the due entries, and from the contacts every node they named.
    method RemovePending() returns (notified: seq<(string, bool)>, drops: seq<PeerId>)
      requires Valid() && DropsActive(program.Table())
      modifies program, kbucket
      ensures Valid()
      ensures program.Table() == old(program.Table()) - Due(old(program.Table()))
      ensures AnnouncesDue(old(program.Table()), notified, drops)
      ensures kbucket.Contents() == Cleaned(kbucket.hash, old(program.Table()), old(kbucket.Contents()))
      ensures forall n, c | n in notified && c in kbucket.Contents() ::
        Id(kbucket.hash, c.node) != Id(kbucket.hash, n.0)
      ensures forall c | c in old(kbucket.Contents()) ::
        c in kbucket.Contents() || exists n :: n in notified && Id(kbucket.hash, c.node) == Id(kbucket.hash, n.0)
      ensures Backed(old(program.Table()), old(kbucket.Contents())) ==> Backed(program.Table(), kbucket.Contents())
    {
      hide PeersAgree, KeysAgree, ListsAgree, KBuckets.Bucketed, AnnouncesDue, TableOf, Backed, Id, Cleaned;
      ghost var t, s := program.Table(), kbucket.Contents();
      notified, drops := program.RemovePending();
      var i := 0;
      while i < |notified|
        invariant i <= |notified| && kbucket.Valid()
        invariant kbucket.Contents() == RemovedAll(kbucket.hash, s, notified[..i])
        modifies kbucket
      {
        RemovedStep(kbucket.hash, s, notified, i);
        kbucket.Erase(notified[i].0);
        i := i + 1;
      }
      assert notified[..i] == notified;
      RemovedIsCleaned(kbucket.hash, t, s, notified, drops);
      if Backed(t, s) {
        StaysBacked(kbucket.hash, t, s, notified, drops);
      }
    }

    ghost function Known(nodes: seq<string>): set<string>
      reads this, kbucket
    {
      KnownIn(kbucket.hash, self, kbucket.Contents(), nodes)
    }

    method FilterIntroduceCandidates(nodes: seq<string>) returns (result: seq<string>)
      requires Valid()
      modifies this`dropedNodes
      ensures Valid()
      ensures dropedNodes == WithTries(old(dropedNodes), nodes, Known(nodes))
      ensures result == LetThrough(old(dropedNodes), nodes, Known(nodes))
      ensures forall n | n in result ::
        n in nodes && n != self && forall c | c in kbucket.contacts :: Id(kbucket.hash, c.node) != Id(kbucket.hash, n)
    {
      hide KBuckets.Bucketed, HasNode, Agrees;
      ghost var d, known := dropedNodes, Known(nodes);
      result := [];
      var i := 0;
      while i < |nodes|
        invariant i <= |nodes| && Valid() && Known(nodes) == known
        invariant dropedNodes == WithTries(d, nodes[..i], known)
        invariant result == LetThrough(d, nodes[..i], known)
      {
        var node := nodes[i];
        assert nodes[..i + 1][..i] == nodes[..i];
        i := i + 1;
        if node == self {
          continue;
        }
        var at := kbucket.Find(node);
        if at == |kbucket.contacts| {
          if node in dropedNodes && dropedNodes[node].counter < dropedNodes[node].limit {
            var wait := dropedNodes[node];
            dropedNodes := dropedNodes[node := wait.(counter := wait.counter + 1)];
          } else {
            result := result + [node];
          }
        }
      }
      assert nodes[..i] == nodes;
      LetThroughFrom(d, nodes, known);
      forall n | n in result
        ensures n in nodes && n != self && forall c | c in kbucket.contacts ::
          Id(kbucket.hash, c.node) != Id(kbucket.hash, n)
      {
        NotKnown(nodes, n);
      }
    }

    lemma NotKnown(nodes: seq<string>, n: string)
      requires n in nodes && n !in Known(nodes)
      ensures n != self && forall c | c in kbucket.contacts :: Id(kbucket.hash, c.node) != Id(kbucket.hash, n)
    {
      forall c | c in kbucket.contacts ensures Id(kbucket.hash, c.node) != Id(kbucket.hash, n) {
        assert c in kbucket.Contents();
      }
    }

    method ProcessNodeJoin(node: string)
      modifies this`dropedNodes
      ensures dropedNodes == WithJoin(old(dropedNodes), node)
      ensures dropedNodes == if node == "" then old(dropedNodes) else old(dropedNodes) - {node}
    {
      if node == "" {
        return;
      }
      dropedNodes := dropedNodes - {node};
    }

    method ProcessNodeDrop(node: string)
      modifies this`dropedNodes
      ensures dropedNodes == WithDrop(old(dropedNodes), node)
      ensures var d := old(dropedNodes);
        if node == "" || (node in d && d[node].counter < d[node].limit) then dropedNodes == d
        else dropedNodes == d[node := Wait(
          if node !in d then 1 else if d[node].limit < 1000000000000 then 10 * d[node].limit else d[node].limit, 0)]
    {
      if node == "" {
        return;
      }
      if node !in dropedNodes {
        dropedNodes := dropedNodes[node := Wait(1, 0)];
      } else if dropedNodes[node].counter >= dropedNodes[node].limit {
        var limit := dropedNodes[node].limit;
        if limit < 1000000000000 {
          limit := limit * 10;
        }
        dropedNodes := dropedNodes[node := Wait(limit, 0)];
      }
    }
  }
}
