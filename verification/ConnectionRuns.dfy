// Whole runs of the connection table.
module ConnectionRuns {
  import opened Wrappers
  import opened ConnectionTables
  import opened CommunicationStates

  datatype Op =
    | AddPassive(address: Address, value: Value)
    | AddActive(address: Address, peer: PeerId, value: Value)
    | SetActiveValue(peer: PeerId, value: Value)
    | SetValue(address: Address, value: Value)
    | DoStep
    | RemoveLaterByAddress(address: Address, steps: nat, sendDrop: bool, onlyIfPassive: bool, mustNotify: bool)
    | RemoveLaterByPeer(peer: PeerId, steps: nat, sendDrop: bool, mustNotify: bool)
    | UndoRemove(peer: PeerId)
    | RemovePending
    | RemoveFromTodoList(address: Address)

  function Step(t: Table, op: Op): Table {
    match op
    case AddPassive(address, value) => WithPassive(t, address, value)
    case AddActive(address, peer, value) => WithActive(t, address, peer, value)
    case SetActiveValue(peer, value) => WithValueOfPeer(t, peer, value)
    case SetValue(address, value) =>
      var d := address.Key();
      if d in t then t[d := t[d].(value := value)] else t
    case DoStep => Stepped(t)
    case RemoveLaterByAddress(address, steps, sendDrop, onlyIfPassive, mustNotify) =>
      if WillRemove(t, address, onlyIfPassive)
      then WithRemovalAt(t, address.Key(), Some(ToRemove(steps, sendDrop, mustNotify))) else t
    case RemoveLaterByPeer(peer, steps, sendDrop, mustNotify) =>
      WithRemovalOfPeer(t, peer, Some(ToRemove(steps, sendDrop, mustNotify)))
    case UndoRemove(peer) => WithRemovalOfPeer(t, peer, None)
    case RemovePending => map d | d in t && !t[d].IsDue() :: t[d]
    case RemoveFromTodoList(address) =>
      var d := address.Key();
      if d in t then t[d := t[d].(toListen := false, toConnect := false)] else t
  }

  // How the socket uses the table: a peer id names one connection, and no
  // drop is asked for on behalf of an address without a peer.
  ghost predicate Allowed(t: Table, op: Op) {
    match op
    case AddActive(address, peer, _) => PeerFree(t, peer, address.Key())
    case RemoveLaterByAddress(address, _, sendDrop, onlyIfPassive, _) =>
      sendDrop && WillRemove(t, address, onlyIfPassive) ==> t[address.Key()].peer.Some?
    case _ => true
  }

  function After(t: Table, ops: seq<Op>): Table {
    if ops == [] then t else Step(After(t, ops[..|ops| - 1]), ops[|ops| - 1])
  }

  ghost predicate AllAllowed(t: Table, ops: seq<Op>) {
    forall i | 0 <= i < |ops| :: Allowed(After(t, ops[..i]), ops[i])
  }

  // No operation turns an active entry passive.
  lemma ActiveStays(t: Table, op: Op, d: Destination)
    requires d in t && t[d].peer.Some? && d in Step(t, op)
    ensures Step(t, op)[d].peer.Some?
  {
  }

  // So a drop always has a peer to be sent to.
  lemma DropsStayActive(t: Table, op: Op)
    requires DropsActive(t) && Allowed(t, op)
    ensures DropsActive(Step(t, op))
  {
    var u := Step(t, op);
    forall d | d in u && u[d].removal.Some? && u[d].removal.value.sendDrop ensures u[d].peer.Some? {
      if d in t && t[d].peer.Some? {
        ActiveStays(t, op, d);
      }
    }
  }

  // The condition on remove_later by address is exactly what is needed.
  lemma DropNeedsPeer(t: Table, address: Address, steps: nat, sendDrop: bool, onlyIfPassive: bool, mustNotify: bool)
    requires DropsActive(t)
    ensures var op := RemoveLaterByAddress(address, steps, sendDrop, onlyIfPassive, mustNotify);
      DropsActive(Step(t, op)) <==> Allowed(t, op)
  {
    var op := RemoveLaterByAddress(address, steps, sendDrop, onlyIfPassive, mustNotify);
    if Allowed(t, op) {
      DropsStayActive(t, op);
    } else {
      assert address.Key() in Step(t, op);
    }
  }

  // Two operations from an empty table are enough to reach a drop that has no
  // peer, which remove_pending would then read.
  lemma DropWithoutPeer(address: Address)
    ensures var ops := [AddPassive(address, DEFAULT_VALUE), RemoveLaterByAddress(address, 0, true, false, false)];
      var d := address.Key();
      && !DropsActive(After(map[], ops)) && !AllAllowed(map[], ops)
      && d in Due(After(map[], ops)) && After(map[], ops)[d].peer == None
  {
    var first := AddPassive(address, DEFAULT_VALUE);
    var second := RemoveLaterByAddress(address, 0, true, false, false);
    var ops := [first, second];
    assert [first][..0] == [] && After(map[], [first]) == Step(After(map[], []), first);
    assert ops[..1] == [first] && After(map[], ops) == Step(After(map[], ops[..1]), second);
    assert !Allowed(After(map[], ops[..1]), ops[1]);
  }

  method Do(c: CommunicationState, op: Op)
    requires c.Valid() && DropsActive(c.Table()) && Allowed(c.Table(), op)
    modifies c
    ensures c.Valid() && c.Table() == Step(old(c.Table()), op) && DropsActive(c.Table())
  {
    hide AddressesAgree, PeersAgree, KeysAgree, ListsAgree, TableOf, DropsActive, PeerFree, AnnouncesDue;
    ghost var t := c.Table();
    DropsStayActive(t, op);
    match op
    case AddPassive(address, value) =>
      var _ := c.AddPassive(address, value);
    case AddActive(address, peer, value) =>
      var _ := c.AddActive(address, peer, value);
    case SetActiveValue(peer, value) =>
      c.SetActiveValue(peer, value);
    case SetValue(address, value) =>
      c.SetValue(address, value);
    case DoStep =>
      c.DoStep();
    case RemoveLaterByAddress(address, steps, sendDrop, onlyIfPassive, mustNotify) =>
      var _ := c.RemoveLaterByAddress(address, steps, sendDrop, onlyIfPassive, mustNotify);
    case RemoveLaterByPeer(peer, steps, sendDrop, mustNotify) =>
      var _ := c.RemoveLaterByPeer(peer, steps, sendDrop, mustNotify);
    case UndoRemove(peer) =>
      c.UndoRemove(peer);
    case RemovePending =>
      var _, _ := c.RemovePending();
      PendingFiltered(t);
    case RemoveFromTodoList(address) =>
      var _ := c.RemoveFromTodoList(address);
  }

  lemma PendingFiltered(t: Table)
    ensures t - Due(t) == Step(t, RemovePending)
  {
  }

  // For every allowed run the positions, indexes and renumberings come to the
  // same as the plain table, and remove_pending can always be called.
  method Run(ops: seq<Op>) returns (c: CommunicationState)
    requires AllAllowed(map[], ops)
    ensures c.Valid() && c.Table() == After(map[], ops) && DropsActive(c.Table())
  {
    hide AddressesAgree, PeersAgree, KeysAgree, ListsAgree, TableOf, DropsActive, Allowed;
    c := new CommunicationState();
    NoDrops();
    for i := 0 to |ops|
      invariant fresh(c) && c.Valid() && c.Table() == After(map[], ops[..i]) && DropsActive(c.Table())
    {
      Do(c, ops[i]);
      assert ops[..i + 1][..i] == ops[..i];
    }
    assert ops[..|ops|] == ops;
  }

  lemma NoDrops()
    ensures DropsActive(map[])
  {
  }

  // --- Countdown ---

  // The operation reschedules or cancels the removal of d. Adding an address
  // does so only when the entry is already due and passive.
  predicate Touches(t: Table, op: Op, d: Destination) {
    match op
    case AddPassive(address, _) => address.Key() == d && Replaceable(t, d)
    case AddActive(address, _, _) => address.Key() == d && Replaceable(t, d)
    case RemoveLaterByAddress(address, _, _, onlyIfPassive, _) => address.Key() == d
      && WillRemove(t, address, onlyIfPassive)
    case RemoveLaterByPeer(peer, _, _, _) => d in t && t[d].peer == Some(peer)
    case UndoRemove(peer) => d in t && t[d].peer == Some(peer)
    case _ => false
  }

  function DoSteps(ops: seq<Op>): nat {
    if ops == [] then 0 else DoSteps(ops[..|ops| - 1]) + (if ops[|ops| - 1] == DoStep then 1 else 0)
  }

  ghost predicate Untouched(t: Table, ops: seq<Op>, d: Destination) {
    forall i | 0 <= i < |ops| :: !Touches(After(t, ops[..i]), ops[i], d)
  }

  // No remove_pending comes after the countdown of n has ended.
  ghost predicate PendingOnlyBefore(ops: seq<Op>, n: nat) {
    forall i | 0 <= i < |ops| && ops[i] == RemovePending :: DoSteps(ops[..i]) < n
  }

  lemma CountdownStep(t: Table, op: Op, d: Destination)
    requires d in t && t[d].removal.Some? && !Touches(t, op, d)
    requires op == RemovePending ==> t[d].removal.value.steps > 0
    ensures d in Step(t, op)
    ensures var info := t[d].removal.value;
      Step(t, op)[d].removal == Some(if op == DoStep && info.steps > 0 then info.(steps := info.steps - 1) else info)
  {
  }

  // However many other entries come and go, the countdown of d goes on.
  lemma {:induction false} SurvivesUntilDue(t: Table, ops: seq<Op>, d: Destination)
    requires d in t && t[d].removal.Some? && Untouched(t, ops, d)
    requires PendingOnlyBefore(ops, t[d].removal.value.steps)
    ensures var n := t[d].removal.value.steps; var k := DoSteps(ops);
      && d in After(t, ops)
      && After(t, ops)[d].removal == Some(t[d].removal.value.(steps := if k < n then n - k else 0))
  {
    hide Step, Touches;
    if ops != [] {
      var m := |ops| - 1;
      forall i | 0 <= i < m ensures ops[..m][..i] == ops[..i] && ops[..m][i] == ops[i] {
      }
      SurvivesUntilDue(t, ops[..m], d);
      CountdownStep(After(t, ops[..m]), ops[m], d);
    }
  }

  // Before the n-th step a remove_pending leaves the entry, from then on the
  // next one takes it.
  lemma TakenOnceDue(t: Table, ops: seq<Op>, d: Destination)
    requires d in t && t[d].removal.Some? && Untouched(t, ops, d)
    requires PendingOnlyBefore(ops, t[d].removal.value.steps)
    ensures d in Step(After(t, ops), RemovePending) <==> DoSteps(ops) < t[d].removal.value.steps
  {
    SurvivesUntilDue(t, ops, d);
  }
}
