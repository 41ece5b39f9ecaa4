// What add and process do to the actions of one session.
module SessionActions {
  import opened Wrappers

  datatype Header = Header(address: string, peer: string, node: string)

  // kind is the type of the action; state is whatever the action itself keeps.
  datatype Action<+S> = Action(kind: nat, state: S, initiated: bool, completed: bool, errored: bool)

  datatype Handled<+S, +P> = Handled(action: Action<S>, package: P, header: Header, done: bool)

  // What the actions do when called; a call may also throw.
  datatype Behaviour<!S, !P> = Behaviour(
    permanent: nat -> bool,
    initiate: (Action<S>, Header) -> Result<(Action<S>, Header)>,
    process: (Action<S>, P, Header) -> Result<Handled<S, P>>)

  // Actions are completed by initiate or by a call of process that returns
  // true, and they stay completed and of their type.
  ghost predicate WellBehaved<S(!new), P(!new)>(b: Behaviour<S, P>) {
    && (forall a, h :: b.initiate(a, h).Ok? ==>
          var r := b.initiate(a, h).value.0; r.kind == a.kind && (a.completed ==> r.completed))
    && (forall a, p, h :: b.process(a, p, h).Ok? ==>
          var r := b.process(a, p, h).value;
          && r.action.kind == a.kind
          && (a.completed ==> r.action.completed) && (!r.done ==> r.action.completed == a.completed))
  }

  // Actions wait for their turn: until initiated they do not touch a package.
  ghost predicate TakeTurns<S(!new), P(!new)>(b: Behaviour<S, P>) {
    forall a, p, h :: b.process(a, p, h).Ok? ==>
      var r := b.process(a, p, h).value;
      r.action.initiated == a.initiated && (!a.initiated ==> !r.done && r.action == a)
  }

  // An action that need not be kept.
  predicate IsSpent<S, P>(b: Behaviour<S, P>, a: Action<S>) {
    a.completed && !b.permanent(a.kind)
  }

  function Kept<S, P>(b: Behaviour<S, P>, actions: seq<Action<S>>): seq<Action<S>> {
    if actions == [] then []
    else (if IsSpent(b, actions[0]) then [] else [actions[0]]) + Kept(b, actions[1..])
  }

  ghost predicate NoneSpent<S, P>(b: Behaviour<S, P>, actions: seq<Action<S>>) {
    forall a | a in actions :: !IsSpent(b, a)
  }

  ghost predicate NoneTwice<S, P>(b: Behaviour<S, P>, actions: seq<Action<S>>) {
    forall i, j | 0 <= i < j < |actions| && actions[i].kind == actions[j].kind :: !b.permanent(actions[i].kind)
  }

  ghost predicate Sound<S, P>(b: Behaviour<S, P>, actions: seq<Action<S>>) {
    actions != [] && NoneSpent(b, actions) && NoneTwice(b, actions)
  }

  // Finished actions, then the one in progress, then those not begun.
  ghost predicate Waiting<S>(actions: seq<Action<S>>) {
    forall a | a in actions :: !a.initiated && !a.completed
  }

  ghost predicate Pipelined<S>(actions: seq<Action<S>>) {
    actions == [] || (
      actions[0].initiated &&
      if actions[0].completed then Pipelined(actions[1..]) else Waiting(actions[1..]))
  }

  // --- process ---

  // threw: one of the calls threw an exception.
  datatype Pass<+S> = Pass(actions: seq<Action<S>>, header: Header, handled: bool, errored: bool, threw: bool) {
    predicate Failed() {
      errored || threw
    }
  }

  // After one action has completed the next are initiated, up to one that
  // does not complete at once.
  function InitiateFrom<S, P>(b: Behaviour<S, P>, actions: seq<Action<S>>, header: Header): Pass<S> {
    if actions == [] then Pass([], header, false, false, false)
    else match b.initiate(actions[0], header)
      case Thrown => Pass(actions, header, false, false, true)
      case Ok((begun, h)) =>
        var a := begun.(initiated := true);
        if a.errored || !a.completed then Pass([a] + actions[1..], h, false, a.errored, false)
        else
          var rest := InitiateFrom(b, actions[1..], h);
          rest.(actions := [a] + rest.actions)
  }

  // The package is offered to one action after the other, until one completes.
  function ProcessFrom<S, P>(b: Behaviour<S, P>, actions: seq<Action<S>>, package: P, header: Header): Pass<S> {
    if actions == [] then Pass([], header, false, false, false)
    else match b.process(actions[0], package, header)
      case Thrown => Pass(actions, header, false, false, true)
      case Ok(r) =>
        if r.action.errored then Pass([r.action] + actions[1..], r.header, r.done, true, false)
        else
          var rest := if r.done && r.action.completed then InitiateFrom(b, actions[1..], r.header)
                      else ProcessFrom(b, actions[1..], r.package, r.header);
          rest.(actions := [r.action] + rest.actions, handled := r.done || rest.handled)
  }

  // The assertion inside the loop: whenever a package is offered the header
  // still names the peer that it came from.
  predicate PeerAsserted<S, P>(b: Behaviour<S, P>, actions: seq<Action<S>>, package: P, header: Header, peer: string) {
    actions == [] || (
      header.peer == peer &&
      match b.process(actions[0], package, header)
      case Thrown => true
      case Ok(r) =>
        r.action.errored || (r.done && r.action.completed)
        || PeerAsserted(b, actions[1..], r.package, r.header, peer))
  }

  // A call of process that leaves the loop going does not change the peer.
  ghost predicate KeepsPeer<S(!new), P(!new)>(b: Behaviour<S, P>) {
    forall a, p, h :: b.process(a, p, h).Ok? && GoesOn(b.process(a, p, h).value) ==>
      b.process(a, p, h).value.header.peer == h.peer
  }

  lemma {:induction false} KeptPeer<S(!new), P(!new)>(
    b: Behaviour<S, P>, actions: seq<Action<S>>, package: P, header: Header)
    requires KeepsPeer(b)
    ensures PeerAsserted(b, actions, package, header, header.peer)
  {
    if actions != [] {
      var r := b.process(actions[0], package, header);
      if r.Ok? && GoesOn(r.value) {
        KeptPeer(b, actions[1..], r.value.package, r.value.header);
      }
    }
  }

  predicate GoesOn<S, P>(r: Handled<S, P>) {
    !r.action.errored && !(r.done && r.action.completed)
  }

  lemma AssertedTwice<S(!new), P(!new)>(b: Behaviour<S, P>, a: Action<S>, p: P, h: Header)
    requires PeerAsserted(b, [a, a], p, h, h.peer)
    ensures b.process(a, p, h).Ok? && GoesOn(b.process(a, p, h).value) ==>
      b.process(a, p, h).value.header.peer == h.peer
  {
    if b.process(a, p, h).Ok? && GoesOn(b.process(a, p, h).value) {
      var r := b.process(a, p, h).value;
      assert [a, a][1..] == [a];
      assert PeerAsserted(b, [a, a][1..], r.package, r.header, h.peer);
    }
  }

  // The assertion never fails, whatever the session and the package.
  ghost predicate AlwaysAsserted<S(!new), P(!new)>(b: Behaviour<S, P>) {
    forall actions, package, header: Header, peer | header.peer == peer ::
      PeerAsserted(b, actions, package, header, peer)
  }

  lemma AssertedMeansKept<S(!new), P(!new)>(b: Behaviour<S, P>)
    requires AlwaysAsserted(b)
    ensures KeepsPeer(b)
  {
    hide PeerAsserted;
    forall a, p, h | b.process(a, p, h).Ok? && GoesOn(b.process(a, p, h).value)
      ensures b.process(a, p, h).value.header.peer == h.peer
    {
      AssertedTwice(b, a, p, h);
    }
  }

  lemma KeptMeansAsserted<S(!new), P(!new)>(b: Behaviour<S, P>)
    requires KeepsPeer(b)
    ensures AlwaysAsserted(b)
  {
    hide PeerAsserted;
    forall actions, package, header: Header, peer | header.peer == peer
      ensures PeerAsserted(b, actions, package, header, peer)
    {
      KeptPeer(b, actions, package, header);
    }
  }

  // That is so if and only if the calls of process that leave the loop going
  // keep the peer.
  lemma PeerAssertedAlways<S(!new), P(!new)>(b: Behaviour<S, P>)
    ensures KeepsPeer(b) <==> AlwaysAsserted(b)
  {
    hide KeepsPeer, AlwaysAsserted;
    if KeepsPeer(b) {
      KeptMeansAsserted(b);
    }
    if AlwaysAsserted(b) {
      AssertedMeansKept(b);
    }
  }

  ghost predicate SameKinds<S>(a: seq<Action<S>>, c: seq<Action<S>>) {
    |a| == |c| && forall i | 0 <= i < |a| :: a[i].kind == c[i].kind
  }

  lemma {:induction false} InitiateKinds<S(!new), P(!new)>(b: Behaviour<S, P>, actions: seq<Action<S>>, header: Header)
    requires WellBehaved(b)
    ensures SameKinds(actions, InitiateFrom(b, actions, header).actions)
  {
    if actions != [] {
      var r := b.initiate(actions[0], header);
      if r.Ok? {
        InitiateKinds(b, actions[1..], r.value.1);
      }
    }
  }

  lemma {:induction false} ProcessKinds<S(!new), P(!new)>(
    b: Behaviour<S, P>, actions: seq<Action<S>>, package: P, header: Header)
    requires WellBehaved(b)
    ensures SameKinds(actions, ProcessFrom(b, actions, package, header).actions)
  {
    if actions != [] {
      var r := b.process(actions[0], package, header);
      if r.Ok? {
        InitiateKinds(b, actions[1..], r.value.header);
        ProcessKinds(b, actions[1..], r.value.package, r.value.header);
      }
    }
  }

  ghost predicate SameCompletion<S>(a: seq<Action<S>>, c: seq<Action<S>>) {
    |a| == |c| && forall i | 0 <= i < |a| :: a[i].completed == c[i].completed
  }

  lemma CompletionPush<S>(a: seq<Action<S>>, x: Action<S>, c: seq<Action<S>>)
    requires a != [] && a[0].completed == x.completed && SameCompletion(a[1..], c)
    ensures SameCompletion(a, [x] + c)
  {
    forall i | 0 < i < |a| ensures a[i] == a[1..][i - 1] && ([x] + c)[i] == c[i - 1] {
    }
  }

  lemma StillOpen<S(!new), P(!new)>(b: Behaviour<S, P>, a: Action<S>, package: P, header: Header)
    requires WellBehaved(b) && b.process(a, package, header).Ok?
    ensures var r := b.process(a, package, header).value; !r.done ==> r.action.completed == a.completed
  {
  }

  // If nothing was handled nothing has completed.
  lemma {:induction false} UnhandledSame<S(!new), P(!new)>(
    b: Behaviour<S, P>, actions: seq<Action<S>>, package: P, header: Header)
    requires WellBehaved(b)
    ensures var r := ProcessFrom(b, actions, package, header);
      !r.handled && !r.Failed() ==> SameCompletion(actions, r.actions)
  {
    hide WellBehaved;
    if actions != [] {
      var r := b.process(actions[0], package, header);
      if r.Ok? && !r.value.action.errored && !r.value.done {
        StillOpen(b, actions[0], package, header);
        var rest := ProcessFrom(b, actions[1..], r.value.package, r.value.header);
        UnhandledSame(b, actions[1..], r.value.package, r.value.header);
        if !rest.handled && !rest.Failed() {
          CompletionPush(actions, r.value.action, rest.actions);
        }
      }
    }
  }

  lemma {:induction false} KeptIn<S, P>(b: Behaviour<S, P>, actions: seq<Action<S>>, a: Action<S>)
    ensures a in Kept(b, actions) <==> a in actions && !IsSpent(b, a)
  {
    if actions != [] {
      assert actions == [actions[0]] + actions[1..];
      KeptIn(b, actions[1..], a);
    }
  }

  lemma {:induction false} KeptIsUnspent<S, P>(b: Behaviour<S, P>, actions: seq<Action<S>>)
    ensures NoneSpent(b, Kept(b, actions))
    ensures NoneTwice(b, actions) ==> NoneTwice(b, Kept(b, actions))
  {
    if actions != [] {
      var a, rest := actions[0], actions[1..];
      assert actions == [a] + rest;
      KeptIsUnspent(b, rest);
      if NoneTwice(b, actions) {
        assert NoneTwice(b, rest);
        var k := Kept(b, rest);
        forall j | 0 <= j < |k| && k[j].kind == a.kind ensures !b.permanent(a.kind) {
          var e := k[j];
          KeptIn(b, rest, e);
          var i :| 0 <= i < |rest| && rest[i] == e;
          assert actions[i + 1].kind == actions[0].kind;
        }
      }
    }
  }

  lemma SameKindsTwice<S, P>(b: Behaviour<S, P>, a: seq<Action<S>>, c: seq<Action<S>>)
    requires SameKinds(a, c) && NoneTwice(b, a)
    ensures NoneTwice(b, c)
  {
    forall i, j | 0 <= i < j < |c| && c[i].kind == c[j].kind ensures !b.permanent(c[i].kind) {
      assert a[i].kind == a[j].kind;
    }
  }

  function SpentCount<S, P>(b: Behaviour<S, P>, actions: seq<Action<S>>): (n: nat)
    ensures n <= |actions|
  {
    if actions == [] then 0
    else SpentCount(b, actions[..|actions| - 1]) + if IsSpent(b, actions[|actions| - 1]) then 1 else 0
  }

  lemma {:induction false} SpentAll<S, P>(b: Behaviour<S, P>, actions: seq<Action<S>>)
    ensures SpentCount(b, actions) == |actions| <==> forall a | a in actions :: IsSpent(b, a)
  {
    if actions != [] {
      var n := |actions| - 1;
      assert actions == actions[..n] + [actions[n]];
      SpentAll(b, actions[..n]);
    }
  }

  // What is left after a pass that did not fail. Something is left unless all
  // the actions are spent, so the container never holds a session of none.
  lemma PassLeaves<S(!new), P(!new)>(b: Behaviour<S, P>, actions: seq<Action<S>>, package: P, header: Header)
    requires WellBehaved(b) && Sound(b, actions)
    ensures var r := ProcessFrom(b, actions, package, header);
      && !r.Failed() ==>
        && (SpentCount(b, r.actions) != |r.actions| ==> Sound(b, Kept(b, r.actions)))
        && (SpentCount(b, r.actions) == |r.actions| ==> Kept(b, r.actions) == [])
        && (!r.handled ==> Kept(b, r.actions) == r.actions && SpentCount(b, r.actions) != |r.actions|)
  {
    hide ProcessFrom;
    var r := ProcessFrom(b, actions, package, header);
    if !r.Failed() {
      ProcessKinds(b, actions, package, header);
      UnhandledSame(b, actions, package, header);
      SameKindsTwice(b, actions, r.actions);
      KeptIsUnspent(b, r.actions);
      SpentAll(b, r.actions);
      if SpentCount(b, r.actions) != |r.actions| {
        var a :| a in r.actions && !IsSpent(b, a);
        KeptIn(b, r.actions, a);
      } else {
        KeepNone(b, r.actions);
      }
      if !r.handled {
        StillUnspent(b, actions, r.actions);
        KeepAll(b, r.actions);
        assert r.actions[0] in r.actions;
      }
    }
  }

  lemma StillUnspent<S, P>(b: Behaviour<S, P>, before: seq<Action<S>>, now: seq<Action<S>>)
    requires SameKinds(before, now) && SameCompletion(before, now) && NoneSpent(b, before)
    ensures NoneSpent(b, now)
  {
    forall a | a in now ensures !IsSpent(b, a) {
      var i :| 0 <= i < |now| && now[i] == a;
      assert before[i] in before;
    }
  }

  lemma {:induction false} KeepAll<S, P>(b: Behaviour<S, P>, actions: seq<Action<S>>)
    requires NoneSpent(b, actions)
    ensures Kept(b, actions) == actions
  {
    if actions != [] {
      assert actions[0] in actions;
      assert actions == [actions[0]] + actions[1..];
      KeepAll(b, actions[1..]);
    }
  }

  lemma {:induction false} KeepNone<S, P>(b: Behaviour<S, P>, actions: seq<Action<S>>)
    requires forall a | a in actions :: IsSpent(b, a)
    ensures Kept(b, actions) == []
  {
    if actions != [] {
      assert actions[0] in actions;
      KeepNone(b, actions[1..]);
    }
  }

  // --- One action in progress ---

  lemma {:induction false} InitiateInOrder<S(!new), P(!new)>(
    b: Behaviour<S, P>, actions: seq<Action<S>>, header: Header)
    requires WellBehaved(b) && (Pipelined(actions) || Waiting(actions))
    ensures var r := InitiateFrom(b, actions, header); !r.Failed() ==> Pipelined(r.actions)
  {
    if actions != [] {
      var r := b.initiate(actions[0], header);
      if r.Ok? {
        WaitingRest(actions);
        var rest := InitiateFrom(b, actions[1..], r.value.1);
        InitiateInOrder(b, actions[1..], r.value.1);
        var a := r.value.0.(initiated := true);
        assert ([a] + rest.actions)[1..] == rest.actions;
        assert ([a] + actions[1..])[1..] == actions[1..];
      }
    }
  }

  lemma WaitingRest<S>(actions: seq<Action<S>>)
    requires actions != []
    ensures Waiting(actions) ==> Waiting(actions[1..])
    ensures actions[0] in actions
  {
  }

  lemma {:induction false} ProcessNothing<S(!new), P(!new)>(
    b: Behaviour<S, P>, actions: seq<Action<S>>, package: P, header: Header)
    requires TakeTurns(b) && Waiting(actions)
    ensures var r := ProcessFrom(b, actions, package, header); !r.Failed() ==> r.actions == actions && !r.handled
  {
    if actions != [] {
      WaitingRest(actions);
      var r := b.process(actions[0], package, header);
      if r.Ok? {
        ProcessNothing(b, actions[1..], r.value.package, r.value.header);
      }
    }
  }

  lemma {:induction false} ProcessInOrder<S(!new), P(!new)>(
    b: Behaviour<S, P>, actions: seq<Action<S>>, package: P, header: Header)
    requires WellBehaved(b) && TakeTurns(b) && Pipelined(actions)
    ensures var r := ProcessFrom(b, actions, package, header); !r.Failed() ==> Pipelined(r.actions)
  {
    if actions != [] {
      var r := b.process(actions[0], package, header);
      if r.Ok? && !r.value.action.errored {
        var a := r.value.action;
        if r.value.done && a.completed {
          InitiateInOrder(b, actions[1..], r.value.header);
          assert ([a] + InitiateFrom(b, actions[1..], r.value.header).actions)[1..] ==
            InitiateFrom(b, actions[1..], r.value.header).actions;
        } else {
          if a.completed {
            ProcessInOrder(b, actions[1..], r.value.package, r.value.header);
          } else {
            ProcessNothing(b, actions[1..], r.value.package, r.value.header);
          }
          assert ([a] + ProcessFrom(b, actions[1..], r.value.package, r.value.header).actions)[1..] ==
            ProcessFrom(b, actions[1..], r.value.package, r.value.header).actions;
        }
      }
    }
  }

  lemma {:induction false} KeptInOrder<S, P>(b: Behaviour<S, P>, actions: seq<Action<S>>)
    requires Pipelined(actions)
    ensures Pipelined(Kept(b, actions))
  {
    if actions != [] {
      var k := Kept(b, actions[1..]);
      assert ([actions[0]] + k)[1..] == k && [] + k == k;
      if actions[0].completed {
        KeptInOrder(b, actions[1..]);
      } else {
        forall a | a in k ensures !a.initiated && !a.completed {
          KeptIn(b, actions[1..], a);
        }
        assert Kept(b, actions) == [actions[0]] + k;
      }
    }
  }

  // --- add ---

  datatype Adding<+S> = Adding(stored: seq<Action<S>>, header: Header, began: bool, errored: bool, threw: bool) {
    predicate Failed() {
      errored || threw
    }
  }

  ghost function PermanentKinds<S, P>(b: Behaviour<S, P>, actions: seq<Action<S>>): set<nat> {
    set a | a in actions && b.permanent(a.kind) :: a.kind
  }

  predicate LastCompleted<S>(actions: seq<Action<S>>) {
    actions == [] || actions[|actions| - 1].completed
  }

  // The items are taken in turn: one of a permanent kind already there is
  // passed over; one whose predecessor has completed is initiated; and what is
  // spent is not stored.
  ghost function AddFrom<S, P>(
    b: Behaviour<S, P>, items: seq<Action<S>>, stored: seq<Action<S>>, previous: bool, header: Header): Adding<S>
    decreases |items|
  {
    if items == [] then Adding(stored, header, false, false, false)
    else
      var item := items[0];
      if item.kind in PermanentKinds(b, stored) then AddFrom(b, items[1..], stored, previous, header)
      else if !previous then
        AddFrom(b, items[1..], if IsSpent(b, item) then stored else stored + [item], false, header)
      else match b.initiate(item, header)
        case Thrown => Adding(stored, header, false, false, true)
        case Ok((begun, h)) =>
          var a := begun.(initiated := true);
          if a.errored then Adding(stored, h, true, true, false)
          else AddFrom(b, items[1..], if IsSpent(b, a) then stored else stored + [a], a.completed, h).(began := true)
  }

  lemma PushSound<S, P>(b: Behaviour<S, P>, stored: seq<Action<S>>, a: Action<S>)
    requires NoneSpent(b, stored) && NoneTwice(b, stored) && a.kind !in PermanentKinds(b, stored) && !IsSpent(b, a)
    ensures NoneSpent(b, stored + [a]) && NoneTwice(b, stored + [a])
  {
    forall i | 0 <= i < |stored| && stored[i].kind == a.kind ensures !b.permanent(a.kind) {
      assert stored[i] in stored;
    }
  }

  lemma {:induction false} AddSound<S(!new), P(!new)>(
    b: Behaviour<S, P>, items: seq<Action<S>>, stored: seq<Action<S>>, previous: bool, header: Header)
    requires WellBehaved(b) && NoneSpent(b, stored) && NoneTwice(b, stored)
    ensures var r := AddFrom(b, items, stored, previous, header); NoneSpent(b, r.stored) && NoneTwice(b, r.stored)
    decreases |items|
  {
    hide NoneTwice, NoneSpent, IsSpent, PermanentKinds;
    if items != [] {
      var item := items[0];
      if item.kind in PermanentKinds(b, stored) {
        AddSound(b, items[1..], stored, previous, header);
      } else if !previous {
        if !IsSpent(b, item) {
          PushSound(b, stored, item);
        }
        AddSound(b, items[1..], if IsSpent(b, item) then stored else stored + [item], false, header);
      } else {
        var r := b.initiate(item, header);
        if r.Ok? {
          var a := r.value.0.(initiated := true);
          if !IsSpent(b, a) {
            PushSound(b, stored, a);
          }
          AddSound(b, items[1..], if IsSpent(b, a) then stored else stored + [a], a.completed, r.value.1);
        }
      }
    }
  }

  ghost predicate AllCompleted<S>(actions: seq<Action<S>>) {
    forall a | a in actions :: a.completed
  }

  lemma {:induction false} PushInOrder<S>(stored: seq<Action<S>>, a: Action<S>)
    requires Pipelined(stored)
    ensures AllCompleted(stored) && a.initiated ==> Pipelined(stored + [a])
    ensures !AllCompleted(stored) && !a.initiated && !a.completed ==> Pipelined(stored + [a])
  {
    if stored != [] {
      assert stored == [stored[0]] + stored[1..];
      assert (stored + [a])[1..] == stored[1..] + [a];
      if stored[0].completed {
        PushInOrder(stored[1..], a);
      }
    } else {
      assert (stored + [a])[1..] == [];
    }
  }

  // In order, the last action tells whether all have completed.
  lemma {:induction false} LastTells<S>(stored: seq<Action<S>>)
    requires Pipelined(stored)
    ensures LastCompleted(stored) <==> AllCompleted(stored)
  {
    if stored != [] {
      assert stored == [stored[0]] + stored[1..];
      if stored[0].completed {
        LastTells(stored[1..]);
      } else if |stored| > 1 {
        assert stored[|stored| - 1] in stored[1..];
      }
    }
  }

  lemma {:induction false} AddInOrder<S(!new), P(!new)>(
    b: Behaviour<S, P>, items: seq<Action<S>>, stored: seq<Action<S>>, previous: bool, header: Header)
    requires WellBehaved(b) && Waiting(items) && Pipelined(stored) && previous == AllCompleted(stored)
    ensures var r := AddFrom(b, items, stored, previous, header); !r.Failed() ==> Pipelined(r.stored)
    decreases |items|
  {
    hide AllCompleted, Waiting, Pipelined, PermanentKinds;
    if items != [] {
      var item := items[0];
      WaitingFirst(items);
      if item.kind in PermanentKinds(b, stored) {
        AddInOrder(b, items[1..], stored, previous, header);
      } else if !previous {
        PushInOrder(stored, item);
        PushCompleted(stored, item);
        AddInOrder(b, items[1..], stored + [item], false, header);
      } else {
        var r := b.initiate(item, header);
        if r.Ok? {
          var a := r.value.0.(initiated := true);
          PushInOrder(stored, a);
          PushCompleted(stored, a);
          AddInOrder(b, items[1..], if IsSpent(b, a) then stored else stored + [a], a.completed, r.value.1);
        }
      }
    }
  }

  lemma WaitingFirst<S>(items: seq<Action<S>>)
    requires items != [] && Waiting(items)
    ensures !items[0].initiated && !items[0].completed && Waiting(items[1..])
  {
    assert items[0] in items;
  }

  lemma PushCompleted<S>(stored: seq<Action<S>>, a: Action<S>)
    ensures AllCompleted(stored + [a]) <==> AllCompleted(stored) && a.completed
  {
    assert a in stored + [a];
  }

  // The first action of a new session is always initiated, so the session's
  // waiting time is always set.
  lemma NewSessionBegins<S, P>(b: Behaviour<S, P>, items: seq<Action<S>>, header: Header)
    requires items != []
    ensures var r := AddFrom(b, items, [], true, header); r.began || r.threw
  {
  }
}
