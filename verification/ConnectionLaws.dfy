// What a few calls in a row come to, told of the addresses, peers and counts
// that the caller gives and of what the last call returns.
module ConnectionLaws {
  import opened Wrappers
  import opened ConnectionTables
  import opened CommunicationStates
  import ConnectionRuns

  // A removal asked for by peer, with n steps, waits for exactly n calls of
  // do_step; the remove_pending after that takes the entry and announces it.
  method RemoveByPeer(c: CommunicationState, peer: PeerId, n: nat, sendDrop: bool, mustNotify: bool, made: nat)
    returns (notified: seq<(string, bool)>, drops: seq<PeerId>)
    requires c.Valid() && DropsActive(c.Table())
    modifies c
    ensures c.Valid()
    ensures forall d | d in old(c.Table()) && old(c.Table())[d].peer == Some(peer) ::
      && (d in c.Table() <==> made < n)
      && (made < n ==> c.Table()[d] == old(c.Table())[d].(removal := Some(ToRemove(n - made, sendDrop, mustNotify))))
      && (made >= n && sendDrop ==> peer in drops)
      && (made >= n && old(c.Table())[d].value.nodeId != "" ==>
        (old(c.Table())[d].value.nodeId, mustNotify) in notified)
  {
    hide AddressesAgree, PeersAgree, KeysAgree, ListsAgree, TableOf, AnnouncesDue, Due, Stepped, WithRemovalOfPeer;
    ghost var t := c.Table();
    var _ := c.RemoveLaterByPeer(peer, n, sendDrop, mustNotify);
    assert DropsActive(c.Table());
    StepTimes(c, made);
    ghost var u := c.Table();
    notified, drops := c.RemovePending();
    forall d | d in t && t[d].peer == Some(peer)
      ensures d in Due(u) <==> made >= n
      ensures made >= n && sendDrop ==> peer in drops
      ensures made >= n && t[d].value.nodeId != "" ==> (t[d].value.nodeId, mustNotify) in notified
    {
      assert u[d] == t[d].(removal := Some(ToRemove(if made < n then n - made else 0, sendDrop, mustNotify)));
      DueOne(u, d, notified, drops);
    }
  }

  // So many steps lower every countdown by as many, down to zero.
  method StepTimes(c: CommunicationState, times: nat)
    requires c.Valid() && DropsActive(c.Table())
    modifies c
    ensures c.Valid() && DropsActive(c.Table()) && c.Table().Keys == old(c.Table()).Keys
    ensures forall d | d in old(c.Table()) ::
      match old(c.Table())[d].removal
      case None => c.Table()[d] == old(c.Table())[d]
      case Some(r) =>
        c.Table()[d] == old(c.Table())[d].(removal := Some(r.(steps := if times < r.steps then r.steps - times else 0)))
  {
    hide AddressesAgree, PeersAgree, KeysAgree, ListsAgree, TableOf, Stepped, DropsActive;
    ghost var t := c.Table();
    for i := 0 to times
      invariant c.Valid() && DropsActive(c.Table()) && c.Table().Keys == t.Keys
      invariant forall d | d in t ::
        match t[d].removal
        case None => c.Table()[d] == t[d]
        case Some(r) => c.Table()[d] == t[d].(removal := Some(r.(steps := if i < r.steps then r.steps - i else 0)))
    {
      SteppedDrops(c.Table());
      c.DoStep();
    }
  }

  lemma SteppedDrops(t: Table)
    requires DropsActive(t)
    ensures DropsActive(Stepped(t))
  {
  }

  // A due entry is announced.
  lemma DueOne(t: Table, d: Destination, notified: seq<(string, bool)>, drops: seq<PeerId>)
    requires d in t && t[d].removal.Some? && AnnouncesDue(t, notified, drops)
    ensures d in Due(t) <==> t[d].removal.value.steps == 0
    ensures d in Due(t) && t[d].value.nodeId != "" ==> (t[d].value.nodeId, t[d].removal.value.mustNotify) in notified
    ensures d in Due(t) && t[d].removal.value.sendDrop && t[d].peer.Some? ==> t[d].peer.value in drops
  {
    if d in Due(t) && t[d].value.nodeId != "" {
      var n := (t[d].value.nodeId, t[d].removal.value.mustNotify);
      assert d in NamingIn(t, n);
      assert multiset(notified)[n] > 0;
    }
    if d in Due(t) && t[d].removal.value.sendDrop && t[d].peer.Some? {
      var p := t[d].peer.value;
      assert d in DroppingIn(t, p);
      assert multiset(drops)[p] > 0;
    }
  }

  // Undoing it in time keeps the entry for good.
  method UndoneStays(c: CommunicationState, peer: PeerId, n: nat, sendDrop: bool, mustNotify: bool)
    requires c.Valid() && DropsActive(c.Table())
    modifies c
    ensures c.Valid()
    ensures forall d | d in old(c.Table()) && old(c.Table())[d].peer == Some(peer) ::
      d in c.Table() && c.Table()[d] == old(c.Table())[d].(removal := None)
  {
    hide AddressesAgree, PeersAgree, KeysAgree, ListsAgree, TableOf, AnnouncesDue, WithRemovalOfPeer;
    var _ := c.RemoveLaterByPeer(peer, n, sendDrop, mustNotify);
    c.UndoRemove(peer);
    var _, _ := c.RemovePending();
  }

  // An address just added is to be connected to when it has a remote end and
  // to be listened on when it has none; if it was not known, not both.
  method AddedIsListed(c: CommunicationState, address: Address, value: Value)
    returns (added: bool, toListen: seq<Address>, toConnect: seq<Address>)
    requires c.Valid()
    modifies c
    ensures c.Valid()
    ensures added && address.remote != Nowhere ==> address in toConnect
    ensures added && address.remote == Nowhere ==> address in toListen
    ensures address.Key() !in old(c.Table()) ==>
      added && (address in toConnect <==> address.remote != Nowhere)
        && (address in toListen <==> address.remote == Nowhere)
  {
    hide PeersAgree, KeysAgree, ListsAgree, WithPassive, TableOf;
    added := c.AddPassive(address, value);
    ghost var t := c.Table();
    toListen := c.GetToListen();
    toConnect := c.GetToConnect();
    UnderItsKey(c.View());
    assert c.Table() == t;
    if added {
      var d := address.Key();
      assert d in t && t[d].address == address && !t[d].IsDue();
      assert address.remote == Nowhere ==> t[d].toListen;
      assert address.remote != Nowhere ==> t[d].toConnect;
    }
  }

  lemma UnderItsKey(s: State)
    requires AddressesAgree(s)
    ensures forall d | d in TableOf(s) :: TableOf(s)[d].address.Key() == d
  {
  }

  // An active entry is listed by what its address is, not by how it was added.
  method ActiveIsListed(c: CommunicationState, address: Address, peer: PeerId, value: Value)
    returns (added: bool, connected: seq<Item>, listening: seq<Item>)
    requires c.Valid() && PeerFree(c.Table(), peer, address.Key())
    modifies c
    ensures c.Valid()
    ensures added && address.remote != Nowhere ==> Item(Some(peer), address, value) in connected
    ensures added && address.remote == Nowhere ==> Item(Some(peer), address, value) in listening
    ensures forall x | x in connected :: x.peer.Some? && x.address.remote != Nowhere
    ensures forall x | x in listening :: x.peer.Some? && x.address.remote == Nowhere
  {
    hide AddressesAgree, PeersAgree, KeysAgree, ListsAgree, WithActive, TableOf, IsShown;
    added := c.AddActive(address, peer, value);
    ghost var t := c.Table();
    connected := c.GetActive(false);
    listening := c.GetActive(true);
    assert c.Table() == t;
    assert Item(Some(peer), address, value) ==
      Item(t[address.Key()].peer, t[address.Key()].address, t[address.Key()].value);
  }

  // An entry is known by the remote end of its address, whatever the local
  // end, or by the local end when there is no remote one.
  method FoundByEnd(c: CommunicationState, a: Address, b: Address, value: Value)
    returns (added: bool, found: Option<Value>)
    requires c.Valid()
    modifies c
    ensures c.Valid()
    ensures added && a.remote != Nowhere && b.remote == a.remote ==> found == Some(value)
    ensures added && a.remote == Nowhere && b.remote == Nowhere && b.local == a.local ==> found == Some(value)
    ensures old(c.Table()) == map[] && a.remote != Nowhere && b.remote != Nowhere && b.remote != a.remote ==>
      found == None
    ensures old(c.Table()) == map[] && a.remote == Nowhere == b.remote && b.local != a.local ==> found == None
  {
    hide AddressesAgree, PeersAgree, KeysAgree, ListsAgree, WithPassive, TableOf;
    added := c.AddPassive(a, value);
    found := c.GetValue(b);
  }
}
