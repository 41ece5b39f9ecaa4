// The meaning of the connection table: a map from addresses to entries, and
// the seven structures full of positions that stand for it.
module ConnectionTables {
  import opened Wrappers

  datatype Destination = Nowhere | Endpoint(host: string, port: nat)

  // A listening address has no remote end.
  datatype Address = Address(local: Destination, remote: Destination) {
    predicate IsListen() {
      remote == Nowhere
    }

    // address_key: what the table is indexed by.
    function Key(): Destination {
      if remote != Nowhere then remote else local
    }
  }

  type PeerId = string

  const UNSET: nat := 0xFFFF_FFFF_FFFF_FFFF

  datatype Value = Value(openAttempts: nat, requested: nat, nodeId: string)

  const DEFAULT_VALUE := Value(UNSET, UNSET, "")

  datatype Item = Item(peer: Option<PeerId>, address: Address, value: Value)

  datatype ToRemove = ToRemove(steps: nat, sendDrop: bool, mustNotify: bool)

  // One row of the table as a caller sees it.
  datatype Entry = Entry(
    address: Address, peer: Option<PeerId>, value: Value, toListen: bool, toConnect: bool,
    removal: Option<ToRemove>)
  {
    predicate IsDue() {
      removal.Some? && removal.value.steps == 0
    }
  }

  type Table = map<Destination, Entry>

  datatype State = State(
    peers: seq<Item>,
    byAddress: map<Destination, nat>,
    byPeer: map<PeerId, nat>,
    byKey: map<string, nat>,
    toListen: set<nat>,
    toConnect: set<nat>,
    toRemove: map<nat, ToRemove>)

  // byAddress and the positions are in bijection.
  ghost predicate AddressesAgree(s: State) {
    && (forall d | d in s.byAddress :: s.byAddress[d] < |s.peers| && s.peers[s.byAddress[d]].address.Key() == d)
    && (forall i | 0 <= i < |s.peers| ::
      s.peers[i].address.Key() in s.byAddress && s.byAddress[s.peers[i].address.Key()] == i)
  }

  // byPeer lists exactly the active items.
  ghost predicate PeersAgree(s: State) {
    && (forall p | p in s.byPeer :: s.byPeer[p] < |s.peers| && s.peers[s.byPeer[p]].peer == Some(p))
    && (forall i | 0 <= i < |s.peers| && s.peers[i].peer.Some? ::
      s.peers[i].peer.value in s.byPeer && s.byPeer[s.peers[i].peer.value] == i)
  }

  // byKey may miss items, but what it lists has the key it is listed under.
  ghost predicate KeysAgree(s: State) {
    forall k | k in s.byKey :: s.byKey[k] < |s.peers| && s.peers[s.byKey[k]].value.nodeId == k
  }

  // Whatever is still to do is in range and passive; removals are in range.
  ghost predicate ListsAgree(s: State) {
    && (forall i | i in s.toListen :: i < |s.peers| && s.peers[i].peer == None)
    && (forall i | i in s.toConnect :: i < |s.peers| && s.peers[i].peer == None)
    && (forall i | i in s.toRemove :: i < |s.peers|)
  }

  ghost predicate Agrees(s: State) {
    AddressesAgree(s) && PeersAgree(s) && KeysAgree(s) && ListsAgree(s)
  }

  ghost function EntryAt(s: State, i: nat): Entry
    requires i < |s.peers|
  {
    Entry(s.peers[i].address, s.peers[i].peer, s.peers[i].value, i in s.toListen, i in s.toConnect,
          if i in s.toRemove then Some(s.toRemove[i]) else None)
  }

  ghost function TableOf(s: State): Table
    requires AddressesAgree(s)
  {
    map d | d in s.byAddress :: EntryAt(s, s.byAddress[d])
  }

  // --- What the operations mean for the table ---

  function NewEntry(address: Address, value: Value, toListen: bool, toConnect: bool): Entry {
    Entry(address, None, value, toListen || address.IsListen(), toConnect || !address.IsListen(), None)
  }

  // A passive entry that is due for removal counts as not there.
  predicate Replaceable(t: Table, d: Destination) {
    d in t && t[d].IsDue() && t[d].peer == None
  }

  predicate IsFresh(t: Table, address: Address) {
    address.Key() !in t || Replaceable(t, address.Key())
  }

  function WithPassive(t: Table, address: Address, value: Value): Table {
    var d := address.Key();
    if d !in t then t[d := NewEntry(address, value, false, false)]
    else if Replaceable(t, d) then t[d := NewEntry(address, value, t[d].toListen, t[d].toConnect)]
    else t
  }

  function WithActive(t: Table, address: Address, peer: PeerId, value: Value): Table {
    var d := address.Key();
    var u := WithPassive(t, address, DEFAULT_VALUE);
    var removal := if d in u then u[d].removal else None;
    u[d := Entry(address, Some(peer), value, false, false, removal)]
  }

  // The peer id is not the one of a different entry.
  ghost predicate PeerFree(t: Table, peer: PeerId, d: Destination) {
    forall e | e in t && t[e].peer == Some(peer) :: e == d
  }

  function Stepped(t: Table): Table {
    map d | d in t ::
      if t[d].removal.Some? && t[d].removal.value.steps != 0
      then t[d].(removal := Some(t[d].removal.value.(steps := t[d].removal.value.steps - 1)))
      else t[d]
  }

  function WithRemovalAt(t: Table, d: Destination, removal: Option<ToRemove>): Table {
    if d in t then t[d := t[d].(removal := removal)] else t
  }

  predicate HasPeer(t: Table, peer: PeerId) {
    exists d :: d in t && t[d].peer == Some(peer)
  }

  function WithValueOfPeer(t: Table, peer: PeerId, value: Value): Table {
    map d | d in t :: if t[d].peer == Some(peer) then t[d].(value := value) else t[d]
  }

  function WithRemovalOfPeer(t: Table, peer: PeerId, removal: Option<ToRemove>): Table {
    map d | d in t :: if t[d].peer == Some(peer) then t[d].(removal := removal) else t[d]
  }

  ghost function Due(t: Table): set<Destination> {
    set d | d in t && t[d].IsDue()
  }

  // Whatever a drop message is to be sent to has a peer id to send it to.
  ghost predicate DropsActive(t: Table) {
    forall d | d in t && t[d].removal.Some? && t[d].removal.value.sendDrop :: t[d].peer.Some?
  }

  // --- Changing one item ---

  // Item i is now item, or item has been appended; its address key stays.
  ghost predicate ItemPlaced(s: State, s': State, i: nat, item: Item) {
    && i <= |s.peers|
    && (if i < |s.peers| then s'.peers == s.peers[i := item] && item.address.Key() == s.peers[i].address.Key()
        else s'.peers == s.peers + [item] && item.address.Key() !in s.byAddress)
    && s'.byAddress == s.byAddress[item.address.Key() := i]
  }

  // The key index lists i under the item's key only, and is otherwise part of
  // what it was.
  ghost predicate KeyFollows(s: State, s': State, i: nat, item: Item) {
    && (forall k | k in s'.byKey ::
      || (k == item.value.nodeId && s'.byKey[k] == i)
      || (k in s.byKey && s'.byKey[k] == s.byKey[k] && (i < |s.peers| ==> k != s.peers[i].value.nodeId)))
    && item.value.nodeId in s'.byKey
  }

  // The peer index after item i's peer has gone from was to now.
  function MovedPeer(byPeer: map<PeerId, nat>, was: Option<PeerId>, now: Option<PeerId>, i: nat): map<PeerId, nat> {
    var without := if was.Some? && now != was then byPeer - {was.value} else byPeer;
    if now.Some? then without[now.value := i] else without
  }

  lemma PlacedAddresses(s: State, s': State, i: nat, item: Item)
    requires AddressesAgree(s) && ItemPlaced(s, s', i, item)
    ensures AddressesAgree(s')
  {
  }

  lemma PlacedKeys(s: State, s': State, i: nat, item: Item)
    requires KeysAgree(s) && ItemPlaced(s, s', i, item) && KeyFollows(s, s', i, item)
    ensures KeysAgree(s')
  {
  }

  lemma PlacedPeers(s: State, s': State, i: nat, item: Item)
    requires PeersAgree(s) && ItemPlaced(s, s', i, item)
    requires s'.byPeer == MovedPeer(s.byPeer, if i < |s.peers| then s.peers[i].peer else None, item.peer, i)
    requires item.peer.Some? && item.peer.value in s.byPeer ==> s.byPeer[item.peer.value] == i
    ensures PeersAgree(s')
  {
  }

  // The to-do lists and the removals of the other items.
  ghost predicate SameElsewhere(s: State, s': State, i: nat) {
    forall j: nat | j != i ::
      && (j in s'.toListen <==> j in s.toListen)
      && (j in s'.toConnect <==> j in s.toConnect)
      && (j in s'.toRemove <==> j in s.toRemove)
      && (j in s.toRemove ==> s'.toRemove[j] == s.toRemove[j])
  }

  lemma ElsewhereEntry(s: State, s': State, i: nat, item: Item, j: nat)
    requires ItemPlaced(s, s', i, item) && SameElsewhere(s, s', i) && j < |s.peers| && j != i
    ensures j < |s'.peers| && EntryAt(s', j) == EntryAt(s, j)
  {
  }

  lemma PlacedTable(s: State, s': State, i: nat, item: Item)
    requires AddressesAgree(s) && AddressesAgree(s') && ItemPlaced(s, s', i, item)
    requires SameElsewhere(s, s', i)
    ensures TableOf(s') == TableOf(s)[item.address.Key() := EntryAt(s', i)]
  {
    hide EntryAt, SameElsewhere;
    var d := item.address.Key();
    assert d in s.byAddress ==> s.byAddress[d] == i;
    forall e | e in s.byAddress && e != d
      ensures s'.byAddress[e] == s.byAddress[e] && EntryAt(s', s.byAddress[e]) == EntryAt(s, s.byAddress[e])
    {
      ElsewhereEntry(s, s', i, item, s.byAddress[e]);
    }
  }
}
