// communication_state: the connection table as the source keeps it, a vector
// of items and six structures that hold positions in it.
module CommunicationStates {
  import opened Wrappers
  import opened ConnectionTables

  class CommunicationState {
    var peers: seq<Item>
    var mapByAddress: map<Destination, nat>
    var mapByPeerId: map<PeerId, nat>
    var mapByKey: map<string, nat>
    var setToListen: set<nat>
    var setToConnect: set<nat>
    var mapToRemove: map<nat, ToRemove>

    function View(): State
      reads this
    {
      State(peers, mapByAddress, mapByPeerId, mapByKey, setToListen, setToConnect, mapToRemove)
    }

    ghost predicate Valid()
      reads this
    {
      Agrees(View())
    }

    ghost function Table(): Table
      reads this
      requires AddressesAgree(View())
    {
      TableOf(View())
    }

    constructor ()
      ensures Valid() && Table() == map[]
    {
      peers, mapByAddress, mapByPeerId, mapByKey := [], map[], map[], map[];
      setToListen, setToConnect, mapToRemove := {}, {}, map[];
    }

    method AddPassive(address: Address, value: Value) returns (added: bool)
      requires Valid()
      modifies this
      ensures Valid()
      ensures added == IsFresh(old(Table()), address)
      ensures Table() == WithPassive(old(Table()), address, value)
      ensures var t := old(Table()); var d := address.Key();
        added <==> d !in t || (t[d].peer == None && t[d].removal.Some? && t[d].removal.value.steps == 0)
      ensures !added ==> Table() == old(Table())
      ensures added ==>
        && address.Key() in Table() && Table() == old(Table())[address.Key() := Table()[address.Key()]]
        && var e := Table()[address.Key()];
        && e.address == address && e.peer == None && e.value == value && e.removal == None
        && (if address.remote == Nowhere then e.toListen else e.toConnect)
        && (address.Key() !in old(Table()) ==> if address.remote == Nowhere then !e.toConnect else !e.toListen)
    {
      hide AddressesAgree, PeersAgree, KeysAgree, TableOf;
      ghost var s := View();
      FindEntry(s, address.Key());
      var index := 0;
      var known := address.Key() in mapByAddress;
      if known {
        index := mapByAddress[address.Key()];
      }
      if known && index in mapToRemove && mapToRemove[index].steps == 0 && peers[index].peer == None {
        mapToRemove := mapToRemove - {index};
        added := true;
      } else if !known {
        peers := peers + [Item(None, address, DEFAULT_VALUE)];
        index := |peers| - 1;
        added := true;
      } else {
        added := false;
      }
      if added {
        PlacePassive(index, address, value, s);
      }
    }

    // The rest of add_passive for a fresh entry: item index, which is due for
    // removal in s or not there yet, is made the passive item of the address.
    method PlacePassive(index: nat, address: Address, value: Value, ghost s: State)
      requires Agrees(s) && ReadyToPlace(s, View(), index, address)
      modifies this
      ensures Valid()
      ensures Table() == WithPassive(TableOf(s), address, value)
    {
      hide ReadyToPlace, AddressesAgree, PeersAgree, KeysAgree, ListsAgree, TableOf, WithPassive;
      ghost var now := View();
      ReadyIndex(s, now, index, address);
      var item := Item(None, address, DEFAULT_VALUE);
      if value.nodeId != item.value.nodeId {
        mapByKey := mapByKey - {item.value.nodeId};
      }
      item := item.(value := value);
      var stored := peers[index];
      mapByAddress := mapByAddress - {stored.address.Key()};
      mapByKey := mapByKey - {stored.value.nodeId};
      peers := peers[index := item];
      mapByAddress := mapByAddress[address.Key() := index];
      mapByKey := mapByKey[item.value.nodeId := index];
      if !address.IsListen() {
        setToConnect := setToConnect + {index};
      } else {
        setToListen := setToListen + {index};
      }
      PassivePlaced(s, now, index, address, value);
    }

    // A peer id belongs to one connection: the structures stay in agreement if
    // and only if no other entry has it.
    method AddActive(address: Address, peer: PeerId, value: Value) returns (added: bool)
      requires Valid()
      modifies this
      ensures AddressesAgree(View())
      ensures Valid() <==> PeerFree(old(Table()), peer, address.Key())
      ensures added == IsFresh(old(Table()), address)
      ensures Table() == WithActive(old(Table()), address, peer, value)
      ensures address.Key() in Table() && Table() == old(Table())[address.Key() := Table()[address.Key()]]
      ensures var e := Table()[address.Key()];
        && e.address == address && e.peer == Some(peer) && e.value == value && !e.toListen && !e.toConnect
        && e.removal == if added then None else old(Table())[address.Key()].removal
    {
      hide AddressesAgree, PeersAgree, KeysAgree, ListsAgree, TableOf, WithPassive, WithActive, PeerFree, IsFresh;
      ghost var t := Table();
      ActiveLaw(t, address, peer, value);
      added := AddPassive(address, DEFAULT_VALUE);
      ghost var s := View();
      FindEntry(s, address.Key());
      PassiveHas(t, address, peer);
      var index := mapByAddress[address.Key()];
      var stored := peers[index];
      if stored.peer.Some? && stored.peer != Some(peer) {
        mapByPeerId := mapByPeerId - {stored.peer.value};
      }
      if value.nodeId != stored.value.nodeId {
        mapByKey := mapByKey - {stored.value.nodeId};
      }
      peers := peers[index := Item(Some(peer), address, value)];
      setToConnect := setToConnect - {index};
      setToListen := setToListen - {index};
      mapByPeerId := mapByPeerId[peer := index];
      mapByKey := mapByKey[value.nodeId := index];
      ActivePlaced(s, index, address, peer, value);
    }

    // The value of item index is replaced, in set_value and set_active_value.
    method SetValueAt(index: nat, value: Value)
      requires Valid() && index < |peers|
      modifies this
      ensures Valid()
      ensures var d := old(View()).peers[index].address.Key();
        && d in old(Table()) && old(Table())[d] == EntryAt(old(View()), index)
        && Table() == old(Table())[d := old(Table())[d].(value := value)]
    {
      hide AddressesAgree, PeersAgree, KeysAgree, ListsAgree, TableOf;
      ghost var s := View();
      var stored := peers[index];
      if value.nodeId != stored.value.nodeId {
        mapByKey := mapByKey - {stored.value.nodeId};
      }
      peers := peers[index := stored.(value := value)];
      mapByKey := mapByKey[value.nodeId := index];
      ValuePlaced(s, index, value);
    }

    method SetActiveValue(peer: PeerId, value: Value)
      requires Valid()
      modifies this
      ensures Valid()
      ensures Table() == WithValueOfPeer(old(Table()), peer, value)
      ensures Table().Keys == old(Table()).Keys
      ensures forall d | d in old(Table()) ::
        Table()[d] == if old(Table())[d].peer != Some(peer) then old(Table())[d] else old(Table())[d].(value := value)
    {
      hide AddressesAgree, PeersAgree, KeysAgree, ListsAgree, TableOf;
      FindPeer(View(), peer);
      if peer in mapByPeerId {
        SetValueAt(mapByPeerId[peer], value);
      }
    }

    method SetValue(address: Address, value: Value)
      requires Valid()
      modifies this
      ensures Valid()
      ensures var t := old(Table()); var d := address.Key();
        Table() == if d in t then t[d := t[d].(value := value)] else t
    {
      hide AddressesAgree, PeersAgree, KeysAgree, ListsAgree, TableOf;
      FindEntry(View(), address.Key());
      if address.Key() in mapByAddress {
        SetValueAt(mapByAddress[address.Key()], value);
      }
    }

    method GetActiveValue(peer: PeerId) returns (value: Option<Value>)
      requires Valid()
      ensures value.Some? <==> HasPeer(Table(), peer)
      ensures value.Some? ==> forall d | d in Table() && Table()[d].peer == Some(peer) ::
        Table()[d].value == value.value
    {
      hide AddressesAgree, PeersAgree, KeysAgree, ListsAgree, TableOf;
      FindPeer(View(), peer);
      if peer in mapByPeerId {
        return Some(peers[mapByPeerId[peer]].value);
      }
      return None;
    }

    method GetValue(address: Address) returns (value: Option<Value>)
      requires Valid()
      ensures value == if address.Key() in Table() then Some(Table()[address.Key()].value) else None
    {
      FindEntry(View(), address.Key());
      if address.Key() in mapByAddress {
        return Some(peers[mapByAddress[address.Key()]].value);
      }
      return None;
    }

    // Every countdown that has not ended goes down by one.
    method DoStep()
      requires Valid()
      modifies `mapToRemove
      ensures Valid()
      ensures Table() == Stepped(old(Table()))
      ensures Table().Keys == old(Table()).Keys
      ensures forall d | d in old(Table()) ::
        match old(Table())[d].removal
        case None => Table()[d] == old(Table())[d]
        case Some(r) =>
          Table()[d] == old(Table())[d].(removal := Some(r.(steps := if r.steps == 0 then 0 else r.steps - 1)))
    {
      hide AddressesAgree, PeersAgree, KeysAgree, ListsAgree, TableOf;
      ghost var s := View();
      var todo := mapToRemove.Keys;
      while todo != {}
        invariant todo <= s.toRemove.Keys && mapToRemove == Counted(s.toRemove, todo)
      {
        var i :| i in todo;
        if mapToRemove[i].steps != 0 {
          mapToRemove := mapToRemove[i := mapToRemove[i].(steps := mapToRemove[i].steps - 1)];
        }
        todo := todo - {i};
      }
      SteppedTable(s);
    }

    method SetRemoval(index: nat, removal: Option<ToRemove>)
      requires Valid() && index < |peers|
      modifies `mapToRemove
      ensures Valid()
      ensures Table() == WithRemovalAt(old(Table()), peers[index].address.Key(), removal)
    {
      hide AddressesAgree, PeersAgree, KeysAgree, ListsAgree, TableOf;
      ghost var s := View();
      mapToRemove := if removal.Some? then mapToRemove[index := removal.value] else mapToRemove - {index};
      RemovalTable(s, index, removal);
    }

    method RemoveLaterByAddress(
      address: Address, steps: nat, sendDrop: bool, onlyIfPassive: bool, mustNotify: bool)
      returns (done: bool)
      requires Valid()
      modifies `mapToRemove
      ensures Valid()
      ensures done == WillRemove(old(Table()), address, onlyIfPassive)
      ensures Table() ==
        if done then WithRemovalAt(old(Table()), address.Key(), Some(ToRemove(steps, sendDrop, mustNotify)))
        else old(Table())
      ensures var t := old(Table()); var d := address.Key();
        if d !in t || (onlyIfPassive && t[d].peer.Some?) then !done && Table() == t
        else done && Table() == t[d := t[d].(removal := Some(ToRemove(steps, sendDrop, mustNotify)))]
    {
      hide AddressesAgree, PeersAgree, KeysAgree, ListsAgree, TableOf;
      FindEntry(View(), address.Key());
      if address.Key() in mapByAddress {
        var index := mapByAddress[address.Key()];
        if onlyIfPassive && peers[index].peer.Some? {
          return false;
        }
        SetRemoval(index, Some(ToRemove(steps, sendDrop, mustNotify)));
        return true;
      }
      return false;
    }

    method RemoveLaterByPeer(peer: PeerId, steps: nat, sendDrop: bool, mustNotify: bool) returns (done: bool)
      requires Valid()
      modifies `mapToRemove
      ensures Valid()
      ensures done == HasPeer(old(Table()), peer)
      ensures Table() == WithRemovalOfPeer(old(Table()), peer, Some(ToRemove(steps, sendDrop, mustNotify)))
      ensures Table().Keys == old(Table()).Keys
      ensures forall d | d in old(Table()) ::
        Table()[d] == if old(Table())[d].peer != Some(peer) then old(Table())[d]
        else old(Table())[d].(removal := Some(ToRemove(steps, sendDrop, mustNotify)))
    {
      hide AddressesAgree, PeersAgree, KeysAgree, ListsAgree, TableOf;
      FindPeer(View(), peer);
      if peer in mapByPeerId {
        SetRemoval(mapByPeerId[peer], Some(ToRemove(steps, sendDrop, mustNotify)));
        return true;
      }
      return false;
    }

    method UndoRemove(peer: PeerId)
      requires Valid()
      modifies `mapToRemove
      ensures Valid()
      ensures Table() == WithRemovalOfPeer(old(Table()), peer, None)
      ensures Table().Keys == old(Table()).Keys
      ensures forall d | d in old(Table()) ::
        Table()[d] == if old(Table())[d].peer != Some(peer) then old(Table())[d] else old(Table())[d].(removal := None)
    {
      hide AddressesAgree, PeersAgree, KeysAgree, ListsAgree, TableOf;
      FindPeer(View(), peer);
      if peer in mapByPeerId {
        var index := mapByPeerId[peer];
        NoRemoval(View(), index);
        if index in mapToRemove {
          SetRemoval(index, None);
        }
      }
    }

    method RemoveFromTodoList(address: Address) returns (done: bool)
      requires Valid()
      modifies `setToConnect, `setToListen
      ensures Valid()
      ensures var t := old(Table()); var d := address.Key();
        && done == (d in t && (t[d].toListen || t[d].toConnect))
        && Table() == if d in t then t[d := t[d].(toListen := false, toConnect := false)] else t
    {
      hide AddressesAgree, PeersAgree, KeysAgree, ListsAgree, TableOf;
      ghost var s := View();
      FindEntry(s, address.Key());
      if address.Key() in mapByAddress {
        var index := mapByAddress[address.Key()];
        done := index in setToConnect || index in setToListen;
        setToConnect := setToConnect - {index};
        setToListen := setToListen - {index};
        NotTodoTable(s, index);
      } else {
        done := false;
      }
    }

    // Item index leaves the vector: everything behind it moves down by one,
    // and every structure that holds positions is renumbered.
    method EraseAt(index: nat)
      requires Valid() && index < |peers| && index !in mapToRemove
      modifies this
      ensures Valid()
      ensures View() == Erased(old(View()), index)
      ensures Table() == old(Table()) - {old(peers)[index].address.Key()}
    {
      hide AddressesAgree, PeersAgree, KeysAgree, ListsAgree, TableOf, ShiftedSet, ShiftedMap, ShiftedKeys;
      ghost var s := View();
      ShiftedNothing(s.toRemove, index);
      for index2 := index + 1 to |peers|
        invariant mapToRemove == ShiftedUpTo(s.toRemove, index, index2)
        modifies `mapToRemove
      {
        ShiftOne(s.toRemove, index, index2);
        if index2 in mapToRemove {
          var info := mapToRemove[index2];
          if index2 - 1 !in mapToRemove {
            mapToRemove := mapToRemove[index2 - 1 := info];
          }
          mapToRemove := mapToRemove - {index2};
        }
      }
      ShiftedAll(s, index);
      peers := peers[..index] + peers[index + 1..];
      setToConnect := RemoveFromSet(index, setToConnect);
      setToListen := RemoveFromSet(index, setToListen);
      mapByAddress := RemoveFromMap(index, mapByAddress);
      mapByPeerId := RemoveFromMap(index, mapByPeerId);
      mapByKey := RemoveFromMap(index, mapByKey);
      ErasedAgrees(s, index);
      ErasedTable(s, index);
    }

    // Takes the removals that are due out of the schedule, and collects what
    // has to be announced, in no particular order.
    method CollectDue() returns (notified: seq<(string, bool)>, drops: seq<PeerId>, indices: seq<nat>)
      requires Valid() && CanDrop(View())
      modifies `mapToRemove
      ensures Ascends(SortUp(indices)) && forall i :: i in SortUp(indices) <==> i in DueAt(old(View()))
      ensures Announces(old(View()), DueAt(old(View())), notified, drops)
      ensures View() == old(View()).(toRemove := old(mapToRemove) - DueAt(old(View())))
    {
      hide AddressesAgree, PeersAgree, KeysAgree, ListsAgree, SortUp, Ascends, Announces, DueAt;
      ghost var s := View();
      notified, drops, indices := [], [], [];
      DueRange(s);
      NothingDue(s);
      var todo := mapToRemove.Keys;
      while todo != {}
        invariant todo <= s.toRemove.Keys
        invariant mapToRemove == s.toRemove - (DueAt(s) - todo)
        invariant Announces(s, DueAt(s) - todo, notified, drops)
        invariant Ascends(SortUp(indices)) && forall i :: i in SortUp(indices) <==> i in DueAt(s) - todo
      {
        var index :| index in todo;
        DueIs(s, index);
        if mapToRemove[index].steps == 0 {
          var stored := peers[index];
          var info := mapToRemove[index];
          AnnounceOne(s, DueAt(s) - todo, index, notified, drops);
          SortOne(indices, index);
          if stored.value.nodeId != "" {
            notified := notified + [(stored.value.nodeId, info.mustNotify)];
          }
          if info.sendDrop {
            drops := drops + [stored.peer.value];
          }
          indices := [index] + indices;
          mapToRemove := mapToRemove - {index};
          assert DueAt(s) - (todo - {index}) == DueAt(s) - todo + {index};
        } else {
          assert DueAt(s) - (todo - {index}) == DueAt(s) - todo;
        }
        todo := todo - {index};
      }
      assert DueAt(s) - {} == DueAt(s);
    }

    // Whatever is due goes, whatever is not due stays as it is.
    method RemovePending() returns (notified: seq<(string, bool)>, drops: seq<PeerId>)
      requires Valid() && DropsActive(Table())
      modifies this
      ensures Valid() && Table() == old(Table()) - Due(old(Table()))
      ensures AnnouncesDue(old(Table()), notified, drops)
    {
      hide AddressesAgree, PeersAgree, KeysAgree, ListsAgree, TableOf, SortUp, Ascends, DueAt, Erased, Announces,
        AnnouncesDue;
      ghost var s := View();
      DropsCan(s);
      var indices;
      notified, drops, indices := CollectDue();
      AnnouncedDue(s, notified, drops);
      ghost var s1 := View();
      Unscheduled(s);
      var sorted := SortUp(indices);
      var n := |sorted|;
      assert sorted[n..] == [];
      DueRange(s);
      while n > 0
        invariant n <= |sorted| && Valid()
        invariant SameBelow(s1, View(), if n < |sorted| then sorted[n] else |s1.peers|)
        invariant Table() == TableOf(s1) - AddressesAt(s1, sorted[n..])
      {
        n := n - 1;
        var index := sorted[n];
        AscendsAt(sorted, n);
        assert index in sorted;
        ghost var before := View();
        EraseAt(index);
        SameBelowErased(s1, before, if n + 1 < |sorted| then sorted[n + 1] else |s1.peers|, index);
        assert sorted[n..] == [index] + sorted[n + 1..];
        AddressesMore(s1, index, sorted[n + 1..]);
      }
      assert sorted[0..] == sorted;
      DueTable(s, sorted);
    }

    predicate DueNow(index: nat)
      reads this
    {
      index in mapToRemove && mapToRemove[index].steps == 0
    }

    // get_to_listen and get_to_connect, for the set of positions todo.
    method AddressesToDo(todo: set<nat>) returns (r: seq<Address>)
      requires Valid() && forall i | i in todo :: i < |peers|
      ensures forall a :: a in r <==> exists i | i in todo :: !DueNow(i) && peers[i].address == a
      ensures forall i, j | 0 <= i < j < |r| :: r[i].Key() != r[j].Key()
    {
      hide PeersAgree, KeysAgree, ListsAgree;
      r := [];
      var rest := todo;
      while rest != {}
        invariant rest <= todo
        invariant forall a :: a in r <==> exists i | i in todo - rest :: !DueNow(i) && peers[i].address == a
        invariant forall i, j | 0 <= i < j < |r| :: r[i].Key() != r[j].Key()
      {
        var index :| index in rest;
        if !DueNow(index) {
          forall j | 0 <= j < |r| ensures r[j].Key() != peers[index].address.Key() {
            assert r[j] in r;
            var i :| i in todo - rest && !DueNow(i) && peers[i].address == r[j];
            assert i != index;
          }
          r := r + [peers[index].address];
        }
        rest := rest - {index};
      }
    }

    method GetToListen() returns (r: seq<Address>)
      requires Valid()
      ensures forall a :: a in r <==> exists d | d in Table() ::
        Table()[d].toListen && !Table()[d].IsDue() && Table()[d].address == a
      ensures forall i, j | 0 <= i < j < |r| :: r[i].Key() != r[j].Key()
    {
      hide PeersAgree, KeysAgree;
      r := AddressesToDo(setToListen);
      forall a
        ensures a in r <==> exists d | d in Table() ::
          Table()[d].toListen && !Table()[d].IsDue() && Table()[d].address == a
      {
        if a in r {
          var i :| i in setToListen && !DueNow(i) && peers[i].address == a;
          assert Table()[a.Key()] == EntryAt(View(), i);
        }
        if d :| d in Table() && Table()[d].toListen && !Table()[d].IsDue() && Table()[d].address == a {
          assert mapByAddress[d] in setToListen;
        }
      }
    }

    method GetToConnect() returns (r: seq<Address>)
      requires Valid()
      ensures forall a :: a in r <==> exists d | d in Table() ::
        Table()[d].toConnect && !Table()[d].IsDue() && Table()[d].address == a
      ensures forall i, j | 0 <= i < j < |r| :: r[i].Key() != r[j].Key()
    {
      hide PeersAgree, KeysAgree;
      r := AddressesToDo(setToConnect);
      forall a
        ensures a in r <==> exists d | d in Table() ::
          Table()[d].toConnect && !Table()[d].IsDue() && Table()[d].address == a
      {
        if a in r {
          var i :| i in setToConnect && !DueNow(i) && peers[i].address == a;
          assert Table()[a.Key()] == EntryAt(View(), i);
        }
        if d :| d in Table() && Table()[d].toConnect && !Table()[d].IsDue() && Table()[d].address == a {
          assert mapByAddress[d] in setToConnect;
        }
      }
    }

    // get_connected and get_listening: the active items of one kind that are
    // not about to go.
    method GetActive(listening: bool) returns (r: seq<Item>)
      requires Valid()
      ensures forall x :: x in r <==> exists d | d in Table() :: IsShown(Table()[d], listening, x)
      ensures forall x :: x in r <==> exists d ::
        && d in Table() && Table()[d].peer.Some? && (Table()[d].address.remote == Nowhere) == listening
        && !(Table()[d].removal.Some? && Table()[d].removal.value.steps == 0)
        && x == Item(Table()[d].peer, Table()[d].address, Table()[d].value)
      ensures forall i, j | 0 <= i < j < |r| :: r[i].address.Key() != r[j].address.Key()
    {
      hide PeersAgree, KeysAgree, ListsAgree;
      r := [];
      for index := 0 to |peers|
        invariant forall x :: x in r <==> exists i | 0 <= i < index :: IsShown(EntryAt(View(), i), listening, x)
        invariant forall i, j | 0 <= i < j < |r| :: r[i].address.Key() != r[j].address.Key()
      {
        var item := peers[index];
        ghost var before := r;
        if !DueNow(index) && item.peer.Some? && item.address.IsListen() == listening {
          forall j | 0 <= j < |r| ensures r[j].address.Key() != item.address.Key() {
            assert r[j] in r;
            var i :| 0 <= i < index && IsShown(EntryAt(View(), i), listening, r[j]);
            assert mapByAddress[peers[i].address.Key()] == i;
          }
          r := r + [item];
        }
        forall x ensures x in r <==> exists i | 0 <= i < index + 1 :: IsShown(EntryAt(View(), i), listening, x) {
          assert x in r <==> x in before || IsShown(EntryAt(View(), index), listening, x);
          if i :| 0 <= i < index + 1 && IsShown(EntryAt(View(), i), listening, x) {
            assert i == index || x in before;
          }
        }
      }
      forall x ensures x in r <==> exists d | d in Table() :: IsShown(Table()[d], listening, x) {
        if x in r {
          var i :| 0 <= i < |peers| && IsShown(EntryAt(View(), i), listening, x);
          assert Table()[x.address.Key()] == EntryAt(View(), i);
        }
        if d :| d in Table() && IsShown(Table()[d], listening, x) {
          assert IsShown(EntryAt(View(), mapByAddress[d]), listening, x);
        }
      }
    }
  }

  ghost predicate IsShown(e: Entry, listening: bool, x: Item) {
    !e.IsDue() && e.peer.Some? && e.address.IsListen() == listening && x == Item(e.peer, e.address, e.value)
  }

  // --- The erase phase of remove_pending ---

  // The positions that are due.
  ghost function DueAt(s: State): set<nat> {
    set i | i in s.toRemove && s.toRemove[i].steps == 0
  }

  ghost predicate CanDrop(s: State) {
    forall i | i in s.toRemove && s.toRemove[i].sendDrop :: i < |s.peers| && s.peers[i].peer.Some?
  }

  function Inserted(x: nat, s: seq<nat>): seq<nat> {
    if s == [] || x <= s[0] then [x] + s else [s[0]] + Inserted(x, s[1..])
  }

  // std::sort on a vector of positions.
  function SortUp(s: seq<nat>): seq<nat> {
    if s == [] then [] else Inserted(s[0], SortUp(s[1..]))
  }

  ghost predicate Ascends(s: seq<nat>) {
    forall i, j | 0 <= i < j < |s| :: s[i] < s[j]
  }

  lemma {:induction false} InsertedAscends(x: nat, s: seq<nat>)
    requires Ascends(s) && x !in s
    ensures Ascends(Inserted(x, s)) && forall y :: y in Inserted(x, s) <==> y == x || y in s
  {
    if s != [] && x > s[0] {
      InsertedAscends(x, s[1..]);
      var r := Inserted(x, s[1..]);
      forall j | 0 <= j < |r| ensures s[0] < r[j] {
        assert r[j] in r;
      }
    }
  }

  lemma SortOne(indices: seq<nat>, x: nat)
    requires Ascends(SortUp(indices))
    ensures x !in SortUp(indices) ==>
      && Ascends(SortUp([x] + indices))
      && forall y :: y in SortUp([x] + indices) <==> y == x || y in SortUp(indices)
  {
    assert ([x] + indices)[1..] == indices;
    if x !in SortUp(indices) {
      InsertedAscends(x, SortUp(indices));
    }
  }

  lemma AscendsAt(s: seq<nat>, n: nat)
    requires Ascends(s) && n < |s|
    ensures n + 1 < |s| ==> s[n] < s[n + 1]
  {
  }

  lemma DueRange(s: State)
    requires Agrees(s)
    ensures forall i | i in s.toRemove :: i < |s.peers|
    ensures forall i | i in DueAt(s) :: i < |s.peers| && i in s.toRemove
  {
  }

  lemma DueIs(s: State, i: nat)
    requires i in s.toRemove
    ensures i in DueAt(s) <==> s.toRemove[i].steps == 0
  {
  }

  // The due positions that say n, and those that ask for a drop of p.
  ghost function Naming(s: State, due: set<nat>, n: (string, bool)): set<nat> {
    set i | i in due && i < |s.peers| && i in s.toRemove && n.0 != ""
      && n == (s.peers[i].value.nodeId, s.toRemove[i].mustNotify)
  }

  ghost function Dropping(s: State, due: set<nat>, p: PeerId): set<nat> {
    set i | i in due && i < |s.peers| && i in s.toRemove && s.toRemove[i].sendDrop && s.peers[i].peer == Some(p)
  }

  // What remove_pending returns, for the positions of due: their non-empty
  // node ids, and the peer ids of those that ask for a drop, one for each.
  ghost predicate Notifies(s: State, due: set<nat>, notified: seq<(string, bool)>) {
    forall n :: multiset(notified)[n] == |Naming(s, due, n)|
  }

  ghost predicate Drops(s: State, due: set<nat>, drops: seq<PeerId>) {
    forall p :: multiset(drops)[p] == |Dropping(s, due, p)|
  }

  ghost predicate Announces(s: State, due: set<nat>, notified: seq<(string, bool)>, drops: seq<PeerId>) {
    && (forall i | i in due :: i < |s.peers| && i in s.toRemove)
    && Notifies(s, due, notified) && Drops(s, due, drops)
  }

  lemma NothingDue(s: State)
    ensures DueAt(s) - s.toRemove.Keys == {} && s.toRemove - {} == s.toRemove
    ensures Announces(s, {}, [], [])
    ensures Ascends(SortUp([])) && SortUp([]) == []
  {
    assert forall n :: Naming(s, {}, n) == {};
    assert forall p :: Dropping(s, {}, p) == {};
  }

  lemma NamingMore(s: State, due: set<nat>, i: nat, n: (string, bool))
    requires i < |s.peers| && i in s.toRemove && i !in due
    ensures |Naming(s, due + {i}, n)| == |Naming(s, due, n)| +
      if n.0 != "" && n == (s.peers[i].value.nodeId, s.toRemove[i].mustNotify) then 1 else 0
  {
    if n.0 != "" && n == (s.peers[i].value.nodeId, s.toRemove[i].mustNotify) {
      assert Naming(s, due + {i}, n) == Naming(s, due, n) + {i};
    } else {
      assert Naming(s, due + {i}, n) == Naming(s, due, n);
    }
  }

  lemma NotifyOne(s: State, due: set<nat>, i: nat, notified: seq<(string, bool)>)
    requires i < |s.peers| && i in s.toRemove && i !in due && Notifies(s, due, notified)
    ensures var item := s.peers[i];
      Notifies(s, due + {i},
        if item.value.nodeId != "" then notified + [(item.value.nodeId, s.toRemove[i].mustNotify)] else notified)
  {
    hide Naming;
    forall n ensures |Naming(s, due + {i}, n)| == |Naming(s, due, n)| +
      if n.0 != "" && n == (s.peers[i].value.nodeId, s.toRemove[i].mustNotify) then 1 else 0
    {
      NamingMore(s, due, i, n);
    }
  }

  lemma DroppingMore(s: State, due: set<nat>, i: nat, p: PeerId)
    requires i < |s.peers| && i in s.toRemove && i !in due
    ensures |Dropping(s, due + {i}, p)| == |Dropping(s, due, p)| +
      if s.toRemove[i].sendDrop && s.peers[i].peer == Some(p) then 1 else 0
  {
    if s.toRemove[i].sendDrop && s.peers[i].peer == Some(p) {
      assert Dropping(s, due + {i}, p) == Dropping(s, due, p) + {i};
    } else {
      assert Dropping(s, due + {i}, p) == Dropping(s, due, p);
    }
  }

  lemma DropOne(s: State, due: set<nat>, i: nat, drops: seq<PeerId>)
    requires i < |s.peers| && i in s.toRemove && i !in due
    requires Drops(s, due, drops) && (s.toRemove[i].sendDrop ==> s.peers[i].peer.Some?)
    ensures Drops(s, due + {i}, if s.toRemove[i].sendDrop then drops + [s.peers[i].peer.value] else drops)
  {
    hide Dropping;
    forall p ensures |Dropping(s, due + {i}, p)| == |Dropping(s, due, p)| +
      if s.toRemove[i].sendDrop && s.peers[i].peer == Some(p) then 1 else 0
    {
      DroppingMore(s, due, i, p);
    }
  }

  lemma AnnounceOne(s: State, due: set<nat>, i: nat, notified: seq<(string, bool)>, drops: seq<PeerId>)
    requires Announces(s, due, notified, drops) && CanDrop(s)
    requires i in s.toRemove && i < |s.peers| && i !in due
    ensures s.toRemove[i].sendDrop ==> s.peers[i].peer.Some?
    ensures var item := s.peers[i]; var info := s.toRemove[i];
      Announces(s, due + {i},
        if item.value.nodeId != "" then notified + [(item.value.nodeId, info.mustNotify)] else notified,
        if info.sendDrop then drops + [item.peer.value] else drops)
  {
    hide Notifies, Drops;
    NotifyOne(s, due, i, notified);
    DropOne(s, due, i, drops);
  }

  ghost function NamingIn(t: Table, n: (string, bool)): set<Destination> {
    set d | d in Due(t) && n.0 != "" && n == (t[d].value.nodeId, t[d].removal.value.mustNotify)
  }

  ghost function DroppingIn(t: Table, p: PeerId): set<Destination> {
    set d | d in Due(t) && t[d].removal.value.sendDrop && t[d].peer == Some(p)
  }

  // The same, told in terms of the table: each node id with its flag is in the
  // list as often as there are due entries that have it, and likewise each
  // peer to be dropped.
  ghost predicate AnnouncesDue(t: Table, notified: seq<(string, bool)>, drops: seq<PeerId>) {
    && (forall n :: multiset(notified)[n] == |NamingIn(t, n)|)
    && (forall p :: multiset(drops)[p] == |DroppingIn(t, p)|)
  }

  ghost function AddressOf(s: State, i: nat): Destination
    requires i < |s.peers|
  {
    s.peers[i].address.Key()
  }

  ghost function AddressesAt(s: State, positions: seq<nat>): set<Destination> {
    set i | i in positions && i < |s.peers| :: AddressOf(s, i)
  }

  // Below the bound, erasing has changed neither the items nor whether they
  // are scheduled.
  ghost predicate SameBelow(s: State, now: State, bound: nat) {
    && bound <= |s.peers| && bound <= |now.peers|
    && forall i: nat | i < bound :: now.peers[i] == s.peers[i] && (i in now.toRemove <==> i in s.toRemove)
  }

  lemma SameBelowErased(s: State, now: State, bound: nat, index: nat)
    requires SameBelow(s, now, bound) && index < bound
    ensures SameBelow(s, Erased(now, index), index)
  {
    forall i: nat | i < index ensures i in Erased(now, index).toRemove <==> i in now.toRemove {
      ShiftedIn(now.toRemove.Keys, index, i);
    }
  }

  lemma AddressesMore(s: State, index: nat, rest: seq<nat>)
    requires index < |s.peers|
    ensures AddressesAt(s, [index] + rest) == AddressesAt(s, rest) + {s.peers[index].address.Key()}
  {
    forall d ensures d in AddressesAt(s, [index] + rest) <==> d in AddressesAt(s, rest) || d == AddressOf(s, index) {
      if d in AddressesAt(s, rest) {
        var i :| i in rest && i < |s.peers| && AddressOf(s, i) == d;
        assert i in [index] + rest;
      }
      if d == AddressOf(s, index) {
        assert index in [index] + rest;
      }
    }
  }

  lemma DropsCan(s: State)
    requires Agrees(s) && DropsActive(TableOf(s))
    ensures CanDrop(s)
  {
    forall i | i in s.toRemove && s.toRemove[i].sendDrop ensures s.peers[i].peer.Some? {
      assert TableOf(s)[s.peers[i].address.Key()] == EntryAt(s, i);
    }
  }

  lemma Unscheduled(s: State)
    requires Agrees(s)
    ensures var s1 := s.(toRemove := s.toRemove - DueAt(s));
      && Agrees(s1)
      && SameBelow(s1, s1, |s1.peers|)
      && TableOf(s1) - AddressesAt(s1, []) == TableOf(s1)
      && (forall i | i in DueAt(s) :: i !in s1.toRemove)
  {
    SameButRemovals(s, s.toRemove - DueAt(s));
  }

  // The addresses of the due positions are the due addresses.
  lemma DueAddresses(s: State, positions: seq<nat>)
    requires Agrees(s) && forall i :: i in positions <==> i in DueAt(s)
    ensures AddressesAt(s, positions) == Due(TableOf(s))
  {
    var t := TableOf(s);
    forall d ensures d in AddressesAt(s, positions) <==> d in Due(t) {
      if d in AddressesAt(s, positions) {
        var i :| i in positions && i < |s.peers| && AddressOf(s, i) == d;
        assert i in DueAt(s) && t[d] == EntryAt(s, i);
      }
      if d in Due(t) {
        var i := s.byAddress[d];
        assert i in DueAt(s) && AddressOf(s, i) == d;
      }
    }
  }

  lemma DueTable(s: State, positions: seq<nat>)
    requires Agrees(s) && forall i :: i in positions <==> i in DueAt(s)
    ensures var s1 := s.(toRemove := s.toRemove - DueAt(s));
      && AddressesAgree(s1)
      && TableOf(s1) - AddressesAt(s1, positions) == TableOf(s) - Due(TableOf(s))
  {
    var s1 := s.(toRemove := s.toRemove - DueAt(s));
    DueAddresses(s, positions);
    assert AddressesAt(s1, positions) == AddressesAt(s, positions) by {
      assert forall i: nat | i < |s.peers| :: AddressOf(s1, i) == AddressOf(s, i);
    }
    forall d | d in s.byAddress && d !in Due(TableOf(s)) ensures TableOf(s1)[d] == TableOf(s)[d] {
      assert s.byAddress[d] !in DueAt(s);
    }
  }

  // A set of positions has as many addresses as it has positions.
  lemma {:induction false} AddressCount(s: State, positions: set<nat>, addresses: set<Destination>)
    requires AddressesAgree(s)
    requires forall i | i in positions :: i < |s.peers|
    requires forall d :: d in addresses <==> d in s.byAddress && s.byAddress[d] in positions
    ensures |positions| == |addresses|
    decreases positions
  {
    if i :| i in positions {
      var d := s.peers[i].address.Key();
      AddressCount(s, positions - {i}, addresses - {d});
    } else {
      assert addresses == {};
    }
  }

  // Due positions and due addresses are the same entries.
  lemma DueEntries(s: State)
    requires Agrees(s)
    ensures forall i | i in DueAt(s) ::
      i < |s.peers| && AddressOf(s, i) in Due(TableOf(s)) && TableOf(s)[AddressOf(s, i)] == EntryAt(s, i)
    ensures forall d | d in Due(TableOf(s)) ::
      d in s.byAddress && s.byAddress[d] in DueAt(s) && s.byAddress[d] < |s.peers|
        && TableOf(s)[d] == EntryAt(s, s.byAddress[d])
  {
  }

  lemma AnnouncedDue(s: State, notified: seq<(string, bool)>, drops: seq<PeerId>)
    requires Agrees(s) && Announces(s, DueAt(s), notified, drops)
    ensures AnnouncesDue(TableOf(s), notified, drops)
  {
    hide PeersAgree, KeysAgree, ListsAgree, Due, DueAt, Naming, NamingIn, Dropping, DroppingIn;
    forall n ensures |Naming(s, DueAt(s), n)| == |NamingIn(TableOf(s), n)| {
      CountNaming(s, n);
    }
    forall p ensures |Dropping(s, DueAt(s), p)| == |DroppingIn(TableOf(s), p)| {
      CountDropping(s, p);
    }
  }

  lemma CountNaming(s: State, n: (string, bool))
    requires Agrees(s)
    ensures |Naming(s, DueAt(s), n)| == |NamingIn(TableOf(s), n)|
  {
    hide PeersAgree, KeysAgree, ListsAgree;
    DueEntries(s);
    AddressCount(s, Naming(s, DueAt(s), n), NamingIn(TableOf(s), n));
  }

  lemma CountDropping(s: State, p: PeerId)
    requires Agrees(s)
    ensures |Dropping(s, DueAt(s), p)| == |DroppingIn(TableOf(s), p)|
  {
    hide PeersAgree, KeysAgree, ListsAgree;
    DueEntries(s);
    AddressCount(s, Dropping(s, DueAt(s), p), DroppingIn(TableOf(s), p));
  }

  method RemoveFromSet(index: nat, positions: set<nat>) returns (r: set<nat>)
    ensures r == ShiftedSet(positions, index)
  {
    r := {};
    var todo := positions;
    while todo != {}
      invariant todo <= positions && r == ShiftedSet(positions - todo, index)
    {
      var item :| item in todo;
      if item > index {
        r := r + {item - 1};
      } else if item < index {
        r := r + {item};
      }
      assert positions - (todo - {item}) == positions - todo + {item};
      todo := todo - {item};
    }
    assert positions - {} == positions;
  }

  method RemoveFromMap<K(==)>(index: nat, m: map<K, nat>) returns (r: map<K, nat>)
    ensures r == ShiftedMap(m, index)
  {
    r := m;
    var todo := m.Keys;
    while todo != {}
      invariant todo <= m.Keys && r == ShiftedBut(m, index, todo)
    {
      var k :| k in todo;
      if r[k] == index {
        r := r - {k};
      } else if r[k] > index {
        r := r[k := r[k] - 1];
      }
      todo := todo - {k};
    }
  }

  // Where position i goes when position index is taken out.
  function Shift(index: nat, i: nat): nat
    requires i != index
  {
    if i > index then i - 1 else i
  }

  ghost function ShiftedSet(positions: set<nat>, index: nat): set<nat> {
    set i | i in positions && i != index :: Shift(index, i)
  }

  ghost function ShiftedBut<K>(m: map<K, nat>, index: nat, todo: set<K>): map<K, nat> {
    map k | k in m && (k in todo || m[k] != index) :: if k in todo then m[k] else Shift(index, m[k])
  }

  ghost function ShiftedMap<K>(m: map<K, nat>, index: nat): map<K, nat> {
    ShiftedBut(m, index, {})
  }

  // The removals, with the positions in (index, n) moved down by one.
  ghost function ShiftedUpTo(m: map<nat, ToRemove>, index: nat, n: nat): map<nat, ToRemove> {
    map i | i in m.Keys + ShiftedSet(m.Keys, index)
      && (if index <= i < n - 1 then i + 1 in m else i in m && i != n - 1) ::
      if index <= i < n - 1 then m[i + 1] else m[i]
  }

  ghost function ShiftedKeys(m: map<nat, ToRemove>, index: nat): map<nat, ToRemove> {
    map i | i in ShiftedSet(m.Keys, index) && (if i < index then i in m else i + 1 in m) ::
      if i < index then m[i] else m[i + 1]
  }

  lemma ShiftedIn(positions: set<nat>, index: nat, j: nat)
    ensures j in ShiftedSet(positions, index) <==> if j < index then j in positions else j + 1 in positions
  {
    if j < index {
      if j in positions { assert Shift(index, j) == j; }
    } else if j + 1 in positions {
      assert Shift(index, j + 1) == j;
    }
  }

  lemma ShiftedNothing(m: map<nat, ToRemove>, index: nat)
    requires index !in m
    ensures ShiftedUpTo(m, index, index + 1) == m
  {
  }

  lemma ShiftOne(m: map<nat, ToRemove>, index: nat, n: nat)
    requires index !in m && index < n
    ensures var before := ShiftedUpTo(m, index, n); var after := ShiftedUpTo(m, index, n + 1);
      && n - 1 !in before && (n in before <==> n in m)
      && after == if n in before then before[n - 1 := before[n]] - {n} else before
  {
    ShiftedIn(m.Keys, index, n - 1);
    var before, after := ShiftedUpTo(m, index, n), ShiftedUpTo(m, index, n + 1);
    forall i: nat ensures i in after <==> i in (if n in before then before[n - 1 := before[n]] - {n} else before) {
      ShiftedIn(m.Keys, index, i);
    }
  }

  lemma ShiftedAll(s: State, index: nat)
    requires ListsAgree(s) && index < |s.peers| && index !in s.toRemove
    ensures ShiftedUpTo(s.toRemove, index, |s.peers|) == ShiftedKeys(s.toRemove, index)
  {
    var a, b := ShiftedUpTo(s.toRemove, index, |s.peers|), ShiftedKeys(s.toRemove, index);
    forall i: nat ensures i in a <==> i in b {
      ShiftedIn(s.toRemove.Keys, index, i);
    }
  }

  ghost function Erased(s: State, index: nat): State
    requires index < |s.peers|
  {
    State(s.peers[..index] + s.peers[index + 1..],
          ShiftedMap(s.byAddress, index), ShiftedMap(s.byPeer, index), ShiftedMap(s.byKey, index),
          ShiftedSet(s.toListen, index), ShiftedSet(s.toConnect, index), ShiftedKeys(s.toRemove, index))
  }

  lemma ErasedAgrees(s: State, index: nat)
    requires Agrees(s) && index < |s.peers|
    ensures Agrees(Erased(s, index))
  {
    ErasedAddresses(s, index);
    ErasedPeers(s, index);
    ErasedLists(s, index);
    ErasedKeys(s, index);
  }

  lemma ErasedItem(s: State, index: nat, j: nat)
    requires index < |s.peers| && j < |s.peers| && j != index
    ensures Shift(index, j) < |Erased(s, index).peers| && Erased(s, index).peers[Shift(index, j)] == s.peers[j]
  {
  }

  lemma ErasedAddresses(s: State, index: nat)
    requires AddressesAgree(s) && index < |s.peers|
    ensures AddressesAgree(Erased(s, index))
  {
    hide ShiftedSet, ShiftedKeys;
    var s' := Erased(s, index);
    forall d | d in s'.byAddress
      ensures s'.byAddress[d] < |s'.peers| && s'.peers[s'.byAddress[d]].address.Key() == d
    {
      ErasedItem(s, index, s.byAddress[d]);
    }
    forall i | 0 <= i < |s'.peers|
      ensures s'.peers[i].address.Key() in s'.byAddress && s'.byAddress[s'.peers[i].address.Key()] == i
    {
      var j := if i < index then i else i + 1;
      assert s'.peers[i] == s.peers[j] && s.byAddress[s.peers[j].address.Key()] == j;
    }
  }

  lemma ErasedPeers(s: State, index: nat)
    requires PeersAgree(s) && index < |s.peers|
    ensures PeersAgree(Erased(s, index))
  {
    hide ShiftedSet, ShiftedKeys;
    var s' := Erased(s, index);
    forall p | p in s'.byPeer ensures s'.byPeer[p] < |s'.peers| && s'.peers[s'.byPeer[p]].peer == Some(p) {
      ErasedItem(s, index, s.byPeer[p]);
    }
    forall i | 0 <= i < |s'.peers| && s'.peers[i].peer.Some?
      ensures s'.peers[i].peer.value in s'.byPeer && s'.byPeer[s'.peers[i].peer.value] == i
    {
      var j := if i < index then i else i + 1;
      assert s'.peers[i] == s.peers[j] && s.byPeer[s.peers[j].peer.value] == j;
    }
  }

  lemma ErasedKeys(s: State, index: nat)
    requires KeysAgree(s) && index < |s.peers|
    ensures KeysAgree(Erased(s, index))
  {
  }

  lemma ErasedLists(s: State, index: nat)
    requires ListsAgree(s) && index < |s.peers|
    ensures ListsAgree(Erased(s, index))
  {
    var s' := Erased(s, index);
    forall i: nat
      ensures i in s'.toListen ==> i < |s'.peers| && s'.peers[i].peer == None
      ensures i in s'.toConnect ==> i < |s'.peers| && s'.peers[i].peer == None
      ensures i in s'.toRemove ==> i < |s'.peers|
    {
      ShiftedIn(s.toListen, index, i);
      ShiftedIn(s.toConnect, index, i);
      ShiftedIn(s.toRemove.Keys, index, i);
    }
  }

  // Every survivor keeps its row of the table, whatever its new position.
  lemma ErasedTable(s: State, index: nat)
    requires index < |s.peers| && index !in s.toRemove
    requires AddressesAgree(s) && AddressesAgree(Erased(s, index))
    ensures TableOf(Erased(s, index)) == TableOf(s) - {s.peers[index].address.Key()}
  {
    hide ShiftedSet, ShiftedKeys, EntryAt, Erased, ShiftedMap, ShiftedBut;
    var s' := Erased(s, index);
    ErasedDomain(s, index);
    assert forall d :: d in TableOf(s') <==> d in TableOf(s) && d != s.peers[index].address.Key();
    forall d | d in s'.byAddress ensures EntryAt(s', s'.byAddress[d]) == EntryAt(s, s.byAddress[d]) {
      ErasedEntry(s, index, s.byAddress[d]);
    }
  }

  lemma ErasedDomain(s: State, index: nat)
    requires AddressesAgree(s) && index < |s.peers|
    ensures var s' := Erased(s, index); var gone := s.peers[index].address.Key();
      forall d :: d in s'.byAddress <==> d in s.byAddress && d != gone
    ensures forall d | d in Erased(s, index).byAddress ::
      s.byAddress[d] != index && Erased(s, index).byAddress[d] == Shift(index, s.byAddress[d])
  {
    hide ShiftedSet, ShiftedKeys, EntryAt;
    assert forall d | d in s.byAddress :: s.byAddress[d] == index <==> d == s.peers[index].address.Key();
  }

  lemma ErasedEntry(s: State, index: nat, j: nat)
    requires index < |s.peers| && j < |s.peers| && j != index
    ensures EntryAt(Erased(s, index), Shift(index, j)) == EntryAt(s, j)
  {
    var i := Shift(index, j);
    ShiftedIn(s.toListen, index, i);
    ShiftedIn(s.toConnect, index, i);
    ShiftedIn(s.toRemove.Keys, index, i);
  }

  predicate WillRemove(t: Table, address: Address, onlyIfPassive: bool) {
    address.Key() in t && !(onlyIfPassive && t[address.Key()].peer.Some?)
  }

  ghost function Counted(m: map<nat, ToRemove>, todo: set<nat>): map<nat, ToRemove> {
    map i | i in m :: if i !in todo && m[i].steps != 0 then m[i].(steps := m[i].steps - 1) else m[i]
  }

  lemma SteppedTable(s: State)
    requires Agrees(s)
    ensures var s' := s.(toRemove := Counted(s.toRemove, {}));
      Agrees(s') && TableOf(s') == Stepped(TableOf(s))
  {
    hide PeersAgree, KeysAgree;
    SameButRemovals(s, Counted(s.toRemove, {}));
  }

  lemma SameButRemovals(s: State, removals: map<nat, ToRemove>)
    requires Agrees(s) && forall i | i in removals :: i < |s.peers|
    ensures Agrees(s.(toRemove := removals))
  {
  }

  lemma RemovalTable(s: State, i: nat, removal: Option<ToRemove>)
    requires Agrees(s) && i < |s.peers|
    ensures var s' := s.(toRemove := if removal.Some? then s.toRemove[i := removal.value] else s.toRemove - {i});
      Agrees(s') && TableOf(s') == WithRemovalAt(TableOf(s), s.peers[i].address.Key(), removal)
  {
    hide PeersAgree, KeysAgree;
    var removals := if removal.Some? then s.toRemove[i := removal.value] else s.toRemove - {i};
    assert forall j | j in removals :: j < |s.peers|;
    SameButRemovals(s, removals);
  }

  lemma NoRemoval(s: State, i: nat)
    requires Agrees(s) && i < |s.peers|
    ensures i !in s.toRemove ==> WithRemovalAt(TableOf(s), s.peers[i].address.Key(), None) == TableOf(s)
  {
  }

  lemma NotTodoTable(s: State, i: nat)
    requires Agrees(s) && i < |s.peers|
    ensures var s' := s.(toListen := s.toListen - {i}, toConnect := s.toConnect - {i});
      var d := s.peers[i].address.Key();
      && Agrees(s') && d in TableOf(s)
      && TableOf(s') == TableOf(s)[d := TableOf(s)[d].(toListen := false, toConnect := false)]
  {
    hide PeersAgree, KeysAgree;
    NotTodoAgrees(s, i);
  }

  lemma NotTodoAgrees(s: State, i: nat)
    requires Agrees(s)
    ensures Agrees(s.(toListen := s.toListen - {i}, toConnect := s.toConnect - {i}))
  {
  }

  // The only entry with the peer id is the one byPeer leads to.
  lemma FindPeer(s: State, peer: PeerId)
    requires Agrees(s)
    ensures peer in s.byPeer <==> HasPeer(TableOf(s), peer)
    ensures peer in s.byPeer ==>
      && s.byPeer[peer] < |s.peers|
      && var d := s.peers[s.byPeer[peer]].address.Key();
      && d in TableOf(s) && TableOf(s)[d] == EntryAt(s, s.byPeer[peer]) && TableOf(s)[d].peer == Some(peer)
      && forall e | e in TableOf(s) && TableOf(s)[e].peer == Some(peer) :: e == d
  {
    var t := TableOf(s);
    forall e | e in t && t[e].peer == Some(peer)
      ensures peer in s.byPeer && s.byPeer[peer] == s.byAddress[e]
    {
      assert s.peers[s.byAddress[e]].peer == Some(peer);
    }
    if peer in s.byPeer {
      assert s.peers[s.byPeer[peer]].address.Key() in t;
    }
  }

  lemma PassiveHas(t: Table, address: Address, peer: PeerId)
    ensures address.Key() in WithPassive(t, address, DEFAULT_VALUE)
    ensures PeerFree(t, peer, address.Key()) <==> PeerFree(WithPassive(t, address, DEFAULT_VALUE), peer, address.Key())
  {
    var d, u := address.Key(), WithPassive(t, address, DEFAULT_VALUE);
    assert forall e | e != d :: (e in t <==> e in u) && (e in t ==> t[e] == u[e]);
  }

  lemma ActiveLaw(t: Table, address: Address, peer: PeerId, value: Value)
    ensures var u := WithActive(t, address, peer, value); var d := address.Key();
      && d in u && u == t[d := u[d]]
      && u[d] == Entry(address, Some(peer), value, false, false, if IsFresh(t, address) then None else t[d].removal)
    ensures var w := WithPassive(t, address, DEFAULT_VALUE); var d := address.Key();
      d in w && WithActive(t, address, peer, value) ==
        w[d := Entry(address, Some(peer), value, false, false, w[d].removal)]
  {
  }

  ghost function ActiveState(s: State, i: nat, address: Address, peer: PeerId, value: Value): State
    requires i < |s.peers|
  {
    var stored := s.peers[i];
    var byPeer := if stored.peer.Some? && stored.peer != Some(peer) then s.byPeer - {stored.peer.value} else s.byPeer;
    var byKey := if value.nodeId != stored.value.nodeId then s.byKey - {stored.value.nodeId} else s.byKey;
    State(s.peers[i := Item(Some(peer), address, value)], s.byAddress, byPeer[peer := i], byKey[value.nodeId := i],
          s.toListen - {i}, s.toConnect - {i}, s.toRemove)
  }

  lemma ActivePlaced(s: State, i: nat, address: Address, peer: PeerId, value: Value)
    requires Agrees(s) && address.Key() in s.byAddress && s.byAddress[address.Key()] == i < |s.peers|
    ensures var s' := ActiveState(s, i, address, peer, value); var d := address.Key();
      && AddressesAgree(s') && d in TableOf(s)
      && (Agrees(s') <==> PeerFree(TableOf(s), peer, d))
      && TableOf(s') == TableOf(s)[d := Entry(address, Some(peer), value, false, false, TableOf(s)[d].removal)]
  {
    hide AddressesAgree, PeersAgree, KeysAgree, ListsAgree, TableOf, PeerFree;
    var s', item := ActiveState(s, i, address, peer, value), Item(Some(peer), address, value);
    FindEntry(s, address.Key());
    ActiveIsPlaced(s, i, address, peer, value);
    PlacedAddresses(s, s', i, item);
    PlacedKeys(s, s', i, item);
    PlacedTable(s, s', i, item);
    ActivePeers(s, i, address, peer, value);
  }

  // Only the peer index can go wrong, when another entry has the peer id.
  lemma ActivePeers(s: State, i: nat, address: Address, peer: PeerId, value: Value)
    requires Agrees(s) && address.Key() in s.byAddress && s.byAddress[address.Key()] == i < |s.peers|
    ensures PeersAgree(ActiveState(s, i, address, peer, value)) <==> PeerFree(TableOf(s), peer, address.Key())
  {
    hide KeysAgree, ListsAgree;
    var s', item := ActiveState(s, i, address, peer, value), Item(Some(peer), address, value);
    FindPeer(s, peer);
    ActiveIsPlaced(s, i, address, peer, value);
    if PeerFree(TableOf(s), peer, address.Key()) {
      PlacedPeers(s, s', i, item);
    } else {
      var e :| e in TableOf(s) && TableOf(s)[e].peer == Some(peer) && e != address.Key();
      var j := s.byAddress[e];
      assert s'.peers[j] == s.peers[j];
    }
  }

  lemma ActiveIsPlaced(s: State, i: nat, address: Address, peer: PeerId, value: Value)
    requires Agrees(s) && address.Key() in s.byAddress && s.byAddress[address.Key()] == i < |s.peers|
    ensures var s' := ActiveState(s, i, address, peer, value); var item := Item(Some(peer), address, value);
      && ItemPlaced(s, s', i, item) && KeyFollows(s, s', i, item)
      && ListsAgree(s') && SameElsewhere(s, s', i)
  {
  }

  ghost function ValueState(s: State, i: nat, value: Value): State
    requires i < |s.peers|
  {
    var stored := s.peers[i];
    var byKey := if value.nodeId != stored.value.nodeId then s.byKey - {stored.value.nodeId} else s.byKey;
    s.(peers := s.peers[i := stored.(value := value)], byKey := byKey[value.nodeId := i])
  }

  lemma ValuePlaced(s: State, i: nat, value: Value)
    requires Agrees(s) && i < |s.peers|
    ensures var s' := ValueState(s, i, value); var d := s.peers[i].address.Key();
      && Agrees(s') && d in TableOf(s) && TableOf(s)[d] == EntryAt(s, i)
      && TableOf(s') == TableOf(s)[d := TableOf(s)[d].(value := value)]
  {
    hide TableOf;
    var s', item := ValueState(s, i, value), s.peers[i].(value := value);
    FindEntry(s, item.address.Key());
    assert s'.byAddress == s.byAddress[item.address.Key() := i];
    PlacedAddresses(s, s', i, item);
    PlacedKeys(s, s', i, item);
    ValuePeers(s, i, value);
    PlacedTable(s, s', i, item);
  }

  lemma ValuePeers(s: State, i: nat, value: Value)
    requires PeersAgree(s) && ListsAgree(s) && i < |s.peers|
    ensures PeersAgree(ValueState(s, i, value)) && ListsAgree(ValueState(s, i, value))
  {
    assert forall j | 0 <= j < |s.peers| :: ValueState(s, i, value).peers[j].peer == s.peers[j].peer;
  }

  ghost predicate ReadyToPlace(s: State, now: State, i: nat, address: Address) {
    var d := address.Key();
    || (&& i < |s.peers| && d in s.byAddress && s.byAddress[d] == i && s.peers[i].address.Key() == d
        && EntryAt(s, i).IsDue() && s.peers[i].peer == None
        && now == s.(toRemove := s.toRemove - {i}))
    || (&& i == |s.peers| && d !in s.byAddress && i !in s.toRemove
        && now == s.(peers := s.peers + [Item(None, address, DEFAULT_VALUE)]))
  }

  lemma FindEntry(s: State, d: Destination)
    requires Agrees(s)
    ensures d in s.byAddress <==> d in TableOf(s)
    ensures d in s.byAddress ==>
      && s.byAddress[d] < |s.peers| && s.peers[s.byAddress[d]].address.Key() == d
      && TableOf(s)[d] == EntryAt(s, s.byAddress[d])
  {
  }

  lemma ReadyIndex(s: State, now: State, i: nat, address: Address)
    requires ReadyToPlace(s, now, i, address)
    ensures i < |now.peers|
  {
  }

  ghost function PassiveState(now: State, i: nat, address: Address, value: Value): State
    requires i < |now.peers|
  {
    var stored := now.peers[i];
    var byKey := if value.nodeId != DEFAULT_VALUE.nodeId then now.byKey - {DEFAULT_VALUE.nodeId} else now.byKey;
    State(
      now.peers[i := Item(None, address, value)],
      (now.byAddress - {stored.address.Key()})[address.Key() := i],
      now.byPeer,
      (byKey - {stored.value.nodeId})[value.nodeId := i],
      if address.IsListen() then now.toListen + {i} else now.toListen,
      if address.IsListen() then now.toConnect else now.toConnect + {i},
      now.toRemove)
  }

  lemma PassivePlaced(s: State, now: State, i: nat, address: Address, value: Value)
    requires Agrees(s) && ReadyToPlace(s, now, i, address) && i < |now.peers|
    ensures var s' := PassiveState(now, i, address, value);
      Agrees(s') && TableOf(s') == WithPassive(TableOf(s), address, value)
  {
    var s', item := PassiveState(now, i, address, value), Item(None, address, value);
    FindEntry(s, address.Key());
    PassiveIsPlaced(s, now, i, address, value);
    PassiveKeys(s, now, i, address, value);
    PlacedAddresses(s, s', i, item);
    PlacedKeys(s, s', i, item);
    PlacedPeers(s, s', i, item);
    PassiveLists(s, now, i, address, value);
    PassiveElsewhere(s, now, i, address, value);
    PlacedTable(s, s', i, item);
  }

  lemma PassiveIsPlaced(s: State, now: State, i: nat, address: Address, value: Value)
    requires AddressesAgree(s) && ReadyToPlace(s, now, i, address) && i < |now.peers|
    ensures ItemPlaced(s, PassiveState(now, i, address, value), i, Item(None, address, value))
  {
    hide EntryAt;
    var s' := PassiveState(now, i, address, value);
    assert s'.byAddress == s.byAddress[address.Key() := i];
    assert i == |s.peers| ==> s'.peers == s.peers + [Item(None, address, value)];
  }

  lemma PassiveKeys(s: State, now: State, i: nat, address: Address, value: Value)
    requires ReadyToPlace(s, now, i, address) && i < |now.peers|
    ensures KeyFollows(s, PassiveState(now, i, address, value), i, Item(None, address, value))
  {
    hide EntryAt;
  }

  lemma ReadyMeans(s: State, now: State, i: nat, address: Address)
    requires ReadyToPlace(s, now, i, address)
    ensures i <= |s.peers| && now.toListen == s.toListen && now.toConnect == s.toConnect
    ensures now.toRemove == s.toRemove - {i} && i < |now.peers| && |s.peers| <= |now.peers| <= |s.peers| + 1
    ensures |now.peers| == |s.peers| || i == |s.peers|
    ensures forall j | 0 <= j < |s.peers| && j != i :: now.peers[j] == s.peers[j]
  {
    hide EntryAt;
  }

  lemma PassiveLists(s: State, now: State, i: nat, address: Address, value: Value)
    requires ListsAgree(s) && ReadyToPlace(s, now, i, address) && i < |now.peers|
    ensures ListsAgree(PassiveState(now, i, address, value))
  {
    hide EntryAt, ReadyToPlace;
    ReadyMeans(s, now, i, address);
    var s' := PassiveState(now, i, address, value);
    assert forall j | 0 <= j < |s.peers| && j != i :: s'.peers[j] == s.peers[j];
    assert s'.peers[i].peer == None;
  }

  lemma PassiveElsewhere(s: State, now: State, i: nat, address: Address, value: Value)
    requires ListsAgree(s) && ReadyToPlace(s, now, i, address) && i < |now.peers|
    ensures var s' := PassiveState(now, i, address, value);
      && SameElsewhere(s, s', i) && i !in s'.toRemove
      && (i in s'.toListen <==> (i < |s.peers| && i in s.toListen) || address.IsListen())
      && (i in s'.toConnect <==> (i < |s.peers| && i in s.toConnect) || !address.IsListen())
  {
    hide EntryAt, ReadyToPlace;
    ReadyMeans(s, now, i, address);
  }
}
