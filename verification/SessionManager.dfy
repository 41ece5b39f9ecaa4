// session_manager: sessions by peer, one to a peer and one to a node.
module SessionManagers {
  import opened Wrappers
  import opened SessionActions
  import opened SessionTraces

  datatype Session<+S> = Session(header: Header, waitUntil: int, duration: int, actions: seq<Action<S>>)

  type Sessions<S> = map<string, Session<S>>

  ghost predicate HasNode<S>(m: Sessions<S>, node: string) {
    exists p :: p in m && m[p].header.node == node
  }

  // The session that stands in the way of inserting the header.
  ghost function Blocking<S>(m: Sessions<S>, header: Header): Option<string> {
    if header.peer in m then Some(header.peer)
    else if HasNode(m, header.node) then
      var p :| p in m && m[p].header.node == header.node;
      Some(p)
    else None
  }

  // Putting the changed session back: it is lost when its new header is
  // another session's.
  ghost function PutBack<S>(others: Sessions<S>, s: Session<S>): Sessions<S> {
    if s.header.peer in others || HasNode(others, s.header.node) then others else others[s.header.peer := s]
  }

  function Least(a: int, b: int): int {
    if a > b then b else a
  }

  // What add leaves of the session that it found or made.
  ghost function AddedTo<S, P>(
    b: Behaviour<S, P>, others: Sessions<S>, s: Session<S>, items: seq<Action<S>>,
    duration: int, now: int): Sessions<S>
  {
    var r := AddFrom(b, items, s.actions, LastCompleted(s.actions), s.header);
    if r.Failed() || r.stored == [] then others
    else if r.header != s.header || r.began then
      var wait := Least(s.duration, duration);
      PutBack(others, Session(r.header, if r.began then now + wait else s.waitUntil, wait, r.stored))
    else others[s.header.peer := s.(actions := r.stored)]
  }

  ghost function ProcessedIn<S, P>(
    b: Behaviour<S, P>, others: Sessions<S>, s: Session<S>, package: P, now: int): Sessions<S>
  {
    var r := ProcessFrom(b, s.actions, package, s.header);
    if r.Failed() || SpentCount(b, r.actions) == |r.actions| then others
    else if r.header != s.header || r.handled then
      var waitUntil := if r.handled then now + s.duration else s.waitUntil;
      PutBack(others, Session(r.header, waitUntil, s.duration, Kept(b, r.actions)))
    else others[s.header.peer := s.(actions := r.actions)]
  }

  ghost predicate Proper<S, P>(b: Behaviour<S, P>, m: Sessions<S>) {
    && (forall p | p in m :: m[p].header.peer == p && Sound(b, m[p].actions))
    && (forall p, q | p in m && q in m && m[p].header.node == m[q].header.node :: p == q)
  }

  ghost predicate InOrder<S>(m: Sessions<S>) {
    forall p | p in m :: Pipelined(m[p].actions)
  }

  lemma PutBackProper<S, P>(b: Behaviour<S, P>, others: Sessions<S>, s: Session<S>)
    requires Proper(b, others) && Sound(b, s.actions)
    ensures Proper(b, PutBack(others, s))
    ensures InOrder(others) && Pipelined(s.actions) ==> InOrder(PutBack(others, s))
  {
    hide Sound, Pipelined;
  }

  lemma WithoutProper<S, P>(b: Behaviour<S, P>, m: Sessions<S>, gone: set<string>)
    requires Proper(b, m)
    ensures Proper(b, m - gone)
    ensures InOrder(m) ==> InOrder(m - gone)
  {
    hide Sound, Pipelined;
  }

  // The session in its old place, with its header unchanged.
  lemma BackProper<S, P>(b: Behaviour<S, P>, m: Sessions<S>, s: Session<S>, actions: seq<Action<S>>)
    requires Proper(b, m) && Sound(b, actions) && s.header.peer !in m && !HasNode(m, s.header.node)
    ensures Proper(b, m[s.header.peer := s.(actions := actions)])
    ensures InOrder(m) && Pipelined(actions) ==> InOrder(m[s.header.peer := s.(actions := actions)])
  {
    hide Sound, Pipelined;
  }

  lemma AddedProper<S(!new), P(!new)>(
    b: Behaviour<S, P>, others: Sessions<S>, s: Session<S>, items: seq<Action<S>>, duration: int, now: int)
    requires WellBehaved(b) && Proper(b, others) && s.header.peer !in others && !HasNode(others, s.header.node)
    requires s.actions == [] || Sound(b, s.actions)
    ensures Proper(b, AddedTo(b, others, s, items, duration, now))
    ensures InOrder(others) && Pipelined(s.actions) && Waiting(items) ==>
      InOrder(AddedTo(b, others, s, items, duration, now))
  {
    hide AddFrom, Proper, Pipelined, NoneTwice, NoneSpent, InOrder, PutBack, HasNode, WellBehaved, Waiting;
    var r := AddFrom(b, items, s.actions, LastCompleted(s.actions), s.header);
    NothingTwice(b, s.actions);
    AddSound(b, items, s.actions, LastCompleted(s.actions), s.header);
    if InOrder(others) && Pipelined(s.actions) && Waiting(items) {
      LastTells(s.actions);
      AddInOrder(b, items, s.actions, LastCompleted(s.actions), s.header);
    }
    if !r.Failed() && r.stored != [] {
      var wait := Least(s.duration, duration);
      PutBackProper(b, others, Session(r.header, if r.began then now + wait else s.waitUntil, wait, r.stored));
      BackProper(b, others, s, r.stored);
    }
  }

  lemma NothingTwice<S, P>(b: Behaviour<S, P>, actions: seq<Action<S>>)
    requires actions == [] || Sound(b, actions)
    ensures NoneSpent(b, actions) && NoneTwice(b, actions)
  {
  }

  lemma ProcessedProper<S(!new), P(!new)>(b: Behaviour<S, P>, others: Sessions<S>, s: Session<S>, package: P, now: int)
    requires WellBehaved(b) && Proper(b, others) && s.header.peer !in others && !HasNode(others, s.header.node)
    requires Sound(b, s.actions)
    ensures Proper(b, ProcessedIn(b, others, s, package, now))
    ensures TakeTurns(b) && InOrder(others) && Pipelined(s.actions) ==> InOrder(ProcessedIn(b, others, s, package, now))
  {
    hide ProcessFrom, Proper, Pipelined, Sound, InOrder, PutBack, HasNode, WellBehaved, TakeTurns, Kept;
    var r := ProcessFrom(b, s.actions, package, s.header);
    PassLeaves(b, s.actions, package, s.header);
    if !r.Failed() && SpentCount(b, r.actions) != |r.actions| {
      if TakeTurns(b) && InOrder(others) && Pipelined(s.actions) {
        ProcessInOrder(b, s.actions, package, s.header);
        KeptInOrder(b, r.actions);
      }
      var waitUntil := if r.handled then now + s.duration else s.waitUntil;
      PutBackProper(b, others, Session(r.header, waitUntil, s.duration, Kept(b, r.actions)));
      if !r.handled {
        BackProper(b, others, s, r.actions);
      }
    }
  }

  // --- When a session is lost ---

  // No other session has the header's peer or node.
  ghost predicate IsFree<S>(others: Sessions<S>, header: Header) {
    header.peer !in others && !HasNode(others, header.node)
  }

  // After a pass that did not fail and left something to do, the session is
  // stored if and only if its new header is free; otherwise it is lost.
  lemma ProcessStores<S(!new), P(!new)>(b: Behaviour<S, P>, others: Sessions<S>, s: Session<S>, package: P, now: int)
    requires WellBehaved(b) && Sound(b, s.actions) && IsFree(others, s.header)
    requires var r := ProcessFrom(b, s.actions, package, s.header);
      !r.Failed() && SpentCount(b, r.actions) != |r.actions|
    ensures var r := ProcessFrom(b, s.actions, package, s.header);
      var after := ProcessedIn(b, others, s, package, now);
      && (after != others <==> IsFree(others, r.header))
      && (after != others ==>
          && r.header.peer in after && after == others[r.header.peer := after[r.header.peer]]
          && after[r.header.peer].header == r.header && after[r.header.peer].actions == Kept(b, r.actions))
  {
    hide ProcessFrom, WellBehaved, Sound, Kept, SpentCount;
    PassLeaves(b, s.actions, package, s.header);
  }

  lemma AddStores<S, P>(
    b: Behaviour<S, P>, others: Sessions<S>, s: Session<S>, items: seq<Action<S>>, duration: int, now: int)
    requires IsFree(others, s.header)
    requires var r := AddFrom(b, items, s.actions, LastCompleted(s.actions), s.header); !r.Failed() && r.stored != []
    ensures var r := AddFrom(b, items, s.actions, LastCompleted(s.actions), s.header);
      var after := AddedTo(b, others, s, items, duration, now);
      && (after != others <==> IsFree(others, r.header))
      && (after != others ==>
          && r.header.peer in after && after == others[r.header.peer := after[r.header.peer]]
          && after[r.header.peer].header == r.header && after[r.header.peer].actions == r.stored)
  {
    hide AddFrom;
  }

  // --- What a session is after add and process, call by call ---

  // s' is s after the items: each had its fate, and the header is what the
  // last call left.
  ghost predicate AddTold<S(!new), P(!new)>(b: Behaviour<S, P>, s: Session<S>, items: seq<Action<S>>, s': Session<S>) {
    exists fates, hs ::
      && Fates(b, s.actions, LastCompleted(s.actions), items, fates, hs)
      && hs[0] == s.header && s'.header == hs[|items|] && s'.actions == s.actions + StoredOf(fates)
  }

  // Every item was there already or is spent, and no action was there.
  ghost predicate NothingStored<S(!new), P(!new)>(b: Behaviour<S, P>, s: Session<S>, items: seq<Action<S>>) {
    exists fates, hs ::
      && Fates(b, s.actions, LastCompleted(s.actions), items, fates, hs)
      && hs[0] == s.header && s.actions + StoredOf(fates) == []
  }

  // Add begins an action.
  ghost predicate AddBegins<S(!new), P(!new)>(b: Behaviour<S, P>, s: Session<S>, items: seq<Action<S>>) {
    LastCompleted(s.actions) && exists i :: 0 <= i < |items| && !IsPresent(b, s.actions, items[i].kind)
  }

  ghost predicate ProcessTold<S(!new), P(!new)>(
    b: Behaviour<S, P>, s: Session<S>, package: P, handled: bool, s': Session<S>) {
    exists after, ps, hs, next ::
      Told(b, s.actions, package, s.header, after, s'.header, handled, ps, hs, next) && s'.actions == Kept(b, after)
  }

  // The calls leave nothing that is unfinished or permanent.
  ghost predicate AllSpent<S(!new), P(!new)>(b: Behaviour<S, P>, s: Session<S>, package: P, handled: bool) {
    exists after, header', ps, hs, next ::
      Told(b, s.actions, package, s.header, after, header', handled, ps, hs, next) && Kept(b, after) == []
  }

  lemma {:induction false} UnbegunHeader<S, P>(
    b: Behaviour<S, P>, items: seq<Action<S>>, prior: seq<Action<S>>, turn: bool, header: Header)
    ensures var r := AddFrom(b, items, prior, turn, header); !r.Failed() && !r.began ==> r.header == header
    decreases |items|
  {
    hide PermanentKinds, IsSpent;
    if items != [] {
      var item := items[0];
      UnbegunHeader(b, items[1..], prior, turn, header);
      UnbegunHeader(b, items[1..], if IsSpent(b, item) then prior else prior + [item], false, header);
    }
  }

  lemma AddedAsTold<S(!new), P(!new)>(
    b: Behaviour<S, P>, others: Sessions<S>, s: Session<S>, items: seq<Action<S>>, duration: int, now: int)
    requires IsFree(others, s.header)
    ensures var after := AddedTo(b, others, s, items, duration, now);
      && (forall p | p in others :: p in after && after[p] == others[p])
      && (forall p | p in after && p !in others :: AddTold(b, s, items, after[p])
            && after[p].duration == (if AddBegins(b, s, items) && s.duration > duration then duration else s.duration)
            && after[p].waitUntil == (if AddBegins(b, s, items) then now + after[p].duration else s.waitUntil))
      && (NeverFails(b) && KeepsHeader(b) && s.header.peer !in after ==> NothingStored(b, s, items))
  {
    hide AddFrom, Fates, LastCompleted, IsPresent, NeverFails, KeepsHeader, HasNode;
    var r := AddFrom(b, items, s.actions, LastCompleted(s.actions), s.header);
    if NeverFails(b) && KeepsHeader(b) {
      AddSucceeds(b, items, s.actions, LastCompleted(s.actions), s.header);
      AddKeepsHeader(b, items, s.actions, LastCompleted(s.actions), s.header);
    }
    if !r.Failed() {
      var fates, hs := AddTraced(b, items, s.actions, LastCompleted(s.actions), s.header);
      FatesLength(b, s.actions, LastCompleted(s.actions), items, fates, hs);
      BegunWhen(b, items, s.actions, LastCompleted(s.actions), s.header);
      UnbegunHeader(b, items, s.actions, LastCompleted(s.actions), s.header);
    }
  }

  lemma ProcessedAsTold<S(!new), P(!new)>(
    b: Behaviour<S, P>, others: Sessions<S>, s: Session<S>, package: P, now: int)
    requires WellBehaved(b) && Sound(b, s.actions) && IsFree(others, s.header)
    ensures var after := ProcessedIn(b, others, s, package, now);
      var handled := ProcessFrom(b, s.actions, package, s.header).handled;
      && (forall p | p in others :: p in after && after[p] == others[p])
      && (forall p | p in after && p !in others :: ProcessTold(b, s, package, handled, after[p])
            && after[p].duration == s.duration
            && after[p].waitUntil == (if handled then now + s.duration else s.waitUntil))
      && (NeverFails(b) && KeepsHeader(b) && s.header.peer !in after ==> AllSpent(b, s, package, handled))
  {
    hide ProcessFrom, Told, NeverFails, KeepsHeader, HasNode, WellBehaved, Sound, Kept;
    var r := ProcessFrom(b, s.actions, package, s.header);
    if NeverFails(b) && KeepsHeader(b) {
      ProcessSucceeds(b, s.actions, package, s.header);
      ProcessKeepsHeader(b, s.actions, package, s.header);
    }
    if !r.Failed() {
      var ps, hs, next := ProcessTraced(b, s.actions, package, s.header);
      PassLeaves(b, s.actions, package, s.header);
    }
  }

  // Actions that leave the peer and the node of the header alone.
  ghost predicate KeepsHeader<S(!new), P(!new)>(b: Behaviour<S, P>) {
    && (forall a, h :: b.initiate(a, h).Ok? ==>
          var r := b.initiate(a, h).value.1; r.peer == h.peer && r.node == h.node)
    && (forall a, p, h :: b.process(a, p, h).Ok? ==>
          var r := b.process(a, p, h).value.header; r.peer == h.peer && r.node == h.node)
  }

  lemma {:induction false} InitiateKeepsHeader<S(!new), P(!new)>(
    b: Behaviour<S, P>, actions: seq<Action<S>>, header: Header)
    requires KeepsHeader(b)
    ensures var r := InitiateFrom(b, actions, header); r.header.peer == header.peer && r.header.node == header.node
  {
    if actions != [] {
      var r := b.initiate(actions[0], header);
      if r.Ok? {
        InitiateKeepsHeader(b, actions[1..], r.value.1);
      }
    }
  }

  lemma {:induction false} ProcessKeepsHeader<S(!new), P(!new)>(
    b: Behaviour<S, P>, actions: seq<Action<S>>, package: P, header: Header)
    requires KeepsHeader(b)
    ensures var r := ProcessFrom(b, actions, package, header);
      r.header.peer == header.peer && r.header.node == header.node
  {
    if actions != [] {
      var r := b.process(actions[0], package, header);
      if r.Ok? {
        InitiateKeepsHeader(b, actions[1..], r.value.header);
        ProcessKeepsHeader(b, actions[1..], r.value.package, r.value.header);
      }
    }
  }

  lemma {:induction false} AddKeepsHeader<S(!new), P(!new)>(
    b: Behaviour<S, P>, items: seq<Action<S>>, stored: seq<Action<S>>, previous: bool, header: Header)
    requires KeepsHeader(b)
    ensures var r := AddFrom(b, items, stored, previous, header);
      r.header.peer == header.peer && r.header.node == header.node
    decreases |items|
  {
    hide PermanentKinds;
    if items != [] {
      var item := items[0];
      if item.kind in PermanentKinds(b, stored) {
        AddKeepsHeader(b, items[1..], stored, previous, header);
      } else if !previous {
        AddKeepsHeader(b, items[1..], if IsSpent(b, item) then stored else stored + [item], false, header);
      } else {
        var r := b.initiate(item, header);
        if r.Ok? {
          var a := r.value.0.(initiated := true);
          AddKeepsHeader(b, items[1..], if IsSpent(b, a) then stored else stored + [a], a.completed, r.value.1);
        }
      }
    }
  }

  // Such actions never lose a session that has something left to do.
  lemma NeverLostByProcess<S(!new), P(!new)>(
    b: Behaviour<S, P>, others: Sessions<S>, s: Session<S>, package: P, now: int)
    requires WellBehaved(b) && KeepsHeader(b) && Sound(b, s.actions) && IsFree(others, s.header)
    requires var r := ProcessFrom(b, s.actions, package, s.header);
      !r.Failed() && SpentCount(b, r.actions) != |r.actions|
    ensures s.header.peer in ProcessedIn(b, others, s, package, now)
  {
    hide ProcessFrom, ProcessedIn, WellBehaved, KeepsHeader, Sound, Kept, SpentCount;
    ProcessKeepsHeader(b, s.actions, package, s.header);
    ProcessStores(b, others, s, package, now);
  }

  lemma NeverLostByAdd<S(!new), P(!new)>(
    b: Behaviour<S, P>, others: Sessions<S>, s: Session<S>, items: seq<Action<S>>, duration: int, now: int)
    requires KeepsHeader(b) && IsFree(others, s.header)
    requires var r := AddFrom(b, items, s.actions, LastCompleted(s.actions), s.header); !r.Failed() && r.stored != []
    ensures s.header.peer in AddedTo(b, others, s, items, duration, now)
  {
    hide AddFrom, AddedTo, KeepsHeader;
    AddKeepsHeader(b, items, s.actions, LastCompleted(s.actions), s.header);
    AddStores(b, others, s, items, duration, now);
  }

  // An input where a session is lost: the actions, of a permanent type, move
  // every session to the node n2, which already has one.
  const TO_N2: Behaviour<bool, bool> := Behaviour(
    _ => true,
    (a: Action<bool>, h: Header) => Ok((a.(completed := true), h.(node := "n2"))),
    (a: Action<bool>, p: bool, h: Header) => Ok(Handled(a.(completed := true), p, h.(node := "n2"), true)))

  const NEW_ACTION: Action<bool> := Action(0, true, false, false, false)

  const FINISHED: Action<bool> := Action(0, true, true, true, false)

  const SECOND: Sessions<bool> := map["p2" := Session(Header("", "p2", "n2"), 0, 0, [FINISHED])]

  lemma SessionLost(now: int)
    ensures WellBehaved(TO_N2) && Proper(TO_N2, SECOND)
    ensures var first := Session(Header("", "p1", "n1"), 0, 0, [FINISHED]);
      && Proper(TO_N2, SECOND["p1" := first])
      && !ProcessFrom(TO_N2, first.actions, true, first.header).Failed()
      && Kept(TO_N2, ProcessFrom(TO_N2, first.actions, true, first.header).actions) != []
      && ProcessedIn(TO_N2, SECOND, first, true, now) == SECOND
    ensures var first := Session(Header("", "p1", "n1"), 0, 0, []);
      && !AddFrom(TO_N2, [NEW_ACTION], [], true, first.header).Failed()
      && AddFrom(TO_N2, [NEW_ACTION], [], true, first.header).stored != []
      && AddedTo(TO_N2, SECOND, first, [NEW_ACTION], 0, now) == SECOND
  {
    var first := Session(Header("", "p1", "n1"), 0, 0, [FINISHED]);
    assert first.actions[1..] == [];
    var r := ProcessFrom(TO_N2, first.actions, true, first.header);
    assert r.actions == [FINISHED] && r.header == Header("", "p1", "n2");
    assert SECOND["p2"].header.node == "n2";
    assert HasNode(SECOND, "n2");
    assert [NEW_ACTION][1..] == [] && PermanentKinds(TO_N2, []) == {};
    var q := AddFrom(TO_N2, [NEW_ACTION], [], true, first.header);
    assert q == AddFrom(TO_N2, [], [] + [FINISHED], true, Header("", "p1", "n2")).(began := true);
  }

  // Nothing else stands where a session of the container stands.
  lemma AloneInPlace<S, P>(b: Behaviour<S, P>, m: Sessions<S>, p: string)
    requires Proper(b, m) && p in m
    ensures m[p].header.peer == p && Sound(b, m[p].actions)
    ensures p !in m - {p} && !HasNode(m - {p}, m[p].header.node)
  {
    hide Sound;
  }

  // --- The loop of process ---

  ghost function Remaining<S, P>(
    b: Behaviour<S, P>, initiate: bool, errored: bool, actions: seq<Action<S>>, package: P,
    header: Header): Pass<S>
  {
    if errored then Pass(actions, header, false, true, false)
    else if initiate then InitiateFrom(b, actions, header)
    else ProcessFrom(b, actions, package, header)
  }

  function Joined<S>(done: seq<Action<S>>, handled: bool, c: Pass<S>): Pass<S> {
    Pass(done + c.actions, c.header, handled || c.handled, c.errored, c.threw)
  }

  lemma SpentPush<S, P>(b: Behaviour<S, P>, done: seq<Action<S>>, a: Action<S>)
    ensures SpentCount(b, done + [a]) == SpentCount(b, done) + if IsSpent(b, a) then 1 else 0
  {
    assert (done + [a])[..|done|] == done;
  }

  lemma {:induction false} SpentRest<S, P>(b: Behaviour<S, P>, done: seq<Action<S>>, rest: seq<Action<S>>)
    requires NoneSpent(b, rest)
    ensures SpentCount(b, done + rest) == SpentCount(b, done)
  {
    if rest == [] {
      assert done + rest == done;
    } else {
      var n := |rest| - 1;
      assert rest[n] in rest;
      SpentRest(b, done, rest[..n]);
      assert done + rest == done + rest[..n] + [rest[n]];
      SpentPush(b, done + rest[..n], rest[n]);
    }
  }

  lemma InitiateOne<S, P>(
    b: Behaviour<S, P>, done: seq<Action<S>>, handled: bool, actions: seq<Action<S>>, i: nat, package: P,
    header: Header)
    requires i < |actions|
    ensures var r := b.initiate(actions[i], header);
      var now := Joined(done, handled, Remaining(b, true, false, actions[i..], package, header));
      if r.Thrown? then now.threw
      else
        var a := r.value.0.(initiated := true);
        now == Joined(done + [a], handled,
          if a.errored || !a.completed then Pass(actions[i + 1..], r.value.1, false, a.errored, false)
          else Remaining(b, true, false, actions[i + 1..], package, r.value.1))
  {
    assert actions[i..][1..] == actions[i + 1..];
    var r := b.initiate(actions[i], header);
    if r.Ok? {
      var a := r.value.0.(initiated := true);
      var rest := if a.errored || !a.completed then actions[i + 1..]
        else InitiateFrom(b, actions[i + 1..], r.value.1).actions;
      assert done + [a] + rest == done + ([a] + rest);
    }
  }

  lemma ProcessOne<S, P>(
    b: Behaviour<S, P>, done: seq<Action<S>>, handled: bool, actions: seq<Action<S>>, i: nat, package: P,
    header: Header)
    requires i < |actions|
    ensures var r := b.process(actions[i], package, header);
      var now := Joined(done, handled, Remaining(b, false, false, actions[i..], package, header));
      if r.Thrown? then now.threw
      else
        var v := r.value;
        now == Joined(done + [v.action], handled || v.done,
          Remaining(b, v.done && v.action.completed, v.action.errored, actions[i + 1..], v.package, v.header))
  {
    assert actions[i..][1..] == actions[i + 1..];
    var r := b.process(actions[i], package, header);
    if r.Ok? {
      var v := r.value;
      var c := Remaining(b, v.done && v.action.completed, v.action.errored, actions[i + 1..], v.package, v.header);
      assert done + [v.action] + c.actions == done + ([v.action] + c.actions);
    }
  }

  class SessionManager<S(!new), P(!new)> {
    const b: Behaviour<S, P>
    var sessions: Sessions<S>

    ghost predicate Valid()
      reads this
    {
      WellBehaved(b) && Proper(b, sessions)
    }

    constructor (b: Behaviour<S, P>)
      requires WellBehaved(b)
      ensures Valid() && this.b == b && sessions == map[]
    {
      this.b := b;
      sessions := map[];
    }

    method FindBlocking(header: Header) returns (r: Option<string>)
      requires Valid()
      ensures r == Blocking(sessions, header)
      ensures r.Some? ==> r.value in sessions
      ensures r.None? ==> header.peer !in sessions && !HasNode(sessions, header.node)
    {
      hide Sound;
      if header.peer in sessions {
        return Some(header.peer);
      }
      r := None;
      if p :| p in sessions && sessions[p].header.node == header.node {
        r := Some(p);
      }
    }

    // Puts a changed session in its place, as modify does.
    method Store(others: Sessions<S>, s: Session<S>)
      modifies this`sessions
      ensures sessions == PutBack(others, s)
    {
      sessions := others;
      var node := s.header.node;
      if s.header.peer !in others && forall p | p in others :: others[p].header.node != node {
        sessions := others[s.header.peer := s];
      }
    }

    // The kinds of the permanent actions.
    method FindPermanent(actions: seq<Action<S>>) returns (kinds: set<nat>)
      ensures kinds == PermanentKinds(b, actions)
    {
      kinds := {};
      var i := 0;
      while i < |actions|
        invariant i <= |actions| && kinds == PermanentKinds(b, actions[..i])
      {
        PermanentPush(b, actions[..i], actions[i]);
        assert actions[..i + 1] == actions[..i] + [actions[i]];
        if b.permanent(actions[i].kind) {
          kinds := kinds + {actions[i].kind};
        }
        i := i + 1;
      }
      assert actions[..i] == actions;
    }

    // Starts or extends the session of the header.
    method Add(header: Header, items: seq<Action<S>>, duration: int, now: int) returns (r: Result<bool>)
      requires Valid()
      modifies this`sessions
      ensures Valid()
      ensures items == [] ==> r == Thrown && sessions == old(sessions)
      ensures items != [] ==>
        var m := old(sessions);
        var found := Blocking(m, header);
        if found.Some? && (m[found.value].header.node != header.node || m[found.value].header.address != header.address)
        then r == Ok(false) && sessions == m
        else
          var s := if found.Some? then m[found.value] else Session(header, 0, duration, []);
          && r == (if AddFrom(b, items, s.actions, LastCompleted(s.actions), s.header).threw then Thrown else Ok(true))
          && sessions == AddedTo(b, m - {s.header.peer}, s, items, duration, now)
      ensures old(InOrder(sessions)) && Waiting(items) ==> InOrder(sessions)
      ensures r == Ok(true) ==>
        var m := old(sessions);
        var found := Blocking(m, header);
        var s := if found.Some? then m[found.value] else Session(header, 0, duration, []);
        && (forall p | p in m && p != s.header.peer :: p in sessions && sessions[p] == m[p])
        && (forall p | p in sessions && (p !in m || p == s.header.peer) :: AddTold(b, s, items, sessions[p])
              && if AddBegins(b, s, items) then
                   && sessions[p].duration == (if s.duration > duration then duration else s.duration)
                   && sessions[p].waitUntil == now + sessions[p].duration
                 else sessions[p].duration == s.duration && sessions[p].waitUntil == s.waitUntil)
        && (NeverFails(b) && KeepsHeader(b) && s.header.peer !in sessions ==> NothingStored(b, s, items))
    {
      hide Told, Fates, AddTold, ProcessTold, AddBegins, NothingStored, AllSpent, NeverFails, KeepsHeader, Proper,
        Sound, WellBehaved, HasNode, Blocking, PutBack, Pipelined, Waiting, InOrder, PermanentKinds;
      if items == [] {
        return Thrown;
      }
      ghost var m := sessions;
      var found := FindBlocking(header);
      if found.Some? && (sessions[found.value].header.node != header.node
        || sessions[found.value].header.address != header.address) {
        return Ok(false);
      }
      var s := if found.Some? then sessions[found.value] else Session(header, 0, duration, []);
      var others := sessions - {s.header.peer};
      if found.Some? {
        AloneInPlace(b, m, found.value);
      } else {
        assert others == m;
      }
      WithoutProper(b, m, {s.header.peer});
      OneInOrder(m, found, s);
      AddedProper(b, others, s, items, duration, now);
      AddedAsTold(b, others, s, items, duration, now);
      var began, ok, stored, newHeader := AddItems(s, items);
      if !ok.Ok? {
        sessions := others;
        return Thrown;
      }
      if ok.value || stored == [] {
        sessions := others;
      } else if newHeader != s.header || began {
        var wait := if s.duration > duration then duration else s.duration;
        Store(others, Session(newHeader, if began then now + wait else s.waitUntil, wait, stored));
      } else {
        sessions := others[s.header.peer := s.(actions := stored)];
      }
      r := Ok(true);
    }

    // The loop of add. ok tells whether an action errored.
    method AddItems(s: Session<S>, items: seq<Action<S>>)
      returns (began: bool, ok: Result<bool>, stored: seq<Action<S>>, header: Header)
      ensures var r := AddFrom(b, items, s.actions, LastCompleted(s.actions), s.header);
        && ok == (if r.threw then Thrown else Ok(r.errored))
        && (!r.Failed() ==> r == Adding(stored, header, began, false, false))
    {
      hide PermanentKinds;
      ghost var whole := AddFrom(b, items, s.actions, LastCompleted(s.actions), s.header);
      var kinds := FindPermanent(s.actions);
      began, stored, header := false, s.actions, s.header;
      var previous := |s.actions| == 0 || s.actions[|s.actions| - 1].completed;
      var i := 0;
      assert items[0..] == items;
      while i < |items|
        invariant i <= |items| && kinds == PermanentKinds(b, stored)
        invariant var rest := AddFrom(b, items[i..], stored, previous, header);
          whole == rest.(began := began || rest.began)
      {
        var item := items[i];
        assert items[i..][1..] == items[i + 1..];
        i := i + 1;
        if item.kind in kinds {
          continue;
        }
        if previous {
          var r := b.initiate(item, header);
          if r.Thrown? {
            return began, Thrown, stored, header;
          }
          item, header := r.value.0.(initiated := true), r.value.1;
          began := true;
          previous := item.completed;
          if item.errored {
            return began, Ok(true), stored, header;
          }
        }
        if !item.completed || b.permanent(item.kind) {
          PermanentPush(b, stored, item);
          if b.permanent(item.kind) {
            kinds := kinds + {item.kind};
          }
          stored := stored + [item];
        }
      }
      ok := Ok(false);
    }

    // Offers the package to the actions of the peer's session.
    method Process(peer: string, package: P, now: int) returns (r: Result<bool>)
      requires Valid()
      modifies this`sessions
      ensures Valid()
      ensures var m := old(sessions);
        if peer == "" || peer !in m then r == Ok(false) && sessions == m
        else
          var pass := ProcessFrom(b, m[peer].actions, package, m[peer].header);
          && r == (if pass.threw then Thrown else Ok(pass.handled))
          && sessions == ProcessedIn(b, m - {peer}, m[peer], package, now)
      ensures TakeTurns(b) && old(InOrder(sessions)) ==> InOrder(sessions)
      ensures r.Ok? && peer != "" && peer in old(sessions) ==>
        var m := old(sessions);
        && (forall p | p in m && p != peer :: p in sessions && sessions[p] == m[p])
        && (forall p | p in sessions && (p !in m || p == peer) :: ProcessTold(b, m[peer], package, r.value, sessions[p])
              && sessions[p].duration == m[peer].duration
              && sessions[p].waitUntil == (if r.value then now + m[peer].duration else m[peer].waitUntil))
        && (NeverFails(b) && KeepsHeader(b) && peer !in sessions ==> AllSpent(b, m[peer], package, r.value))
    {
      hide Told, Fates, AddTold, ProcessTold, AddBegins, NothingStored, AllSpent, NeverFails, KeepsHeader, Proper,
        Sound, WellBehaved, HasNode, PutBack, Pipelined, TakeTurns, InOrder, Kept, ProcessFrom;
      if peer == "" || peer !in sessions {
        return Ok(false);
      }
      ghost var m := sessions;
      var s, others := sessions[peer], sessions - {peer};
      AloneInPlace(b, m, peer);
      WithoutProper(b, m, {peer});
      OneInOrder(m, Some(peer), s);
      ProcessedProper(b, others, s, package, now);
      ProcessedAsTold(b, others, s, package, now);
      PassLeaves(b, s.actions, package, s.header);
      NothingTwice(b, s.actions);
      var pass, disposeCount := ProcessActions(s.actions, package, s.header);
      if pass.threw {
        sessions := others;
        return Thrown;
      }
      if pass.errored || disposeCount == |pass.actions| {
        sessions := others;
      } else if pass.header != s.header || pass.handled {
        var actions := Kept(b, pass.actions);
        LeftOver(b, actions);
        assert actions != [];
        var waitUntil := if pass.handled then now + s.duration else s.waitUntil;
        Store(others, Session(pass.header, waitUntil, s.duration, actions));
      } else {
        sessions := others[peer := s.(actions := pass.actions)];
      }
      r := Ok(pass.handled);
    }

    // The loop of process, with the number of actions to dispose of.
    method ProcessActions(actions: seq<Action<S>>, package: P, header: Header)
      returns (pass: Pass<S>, disposeCount: nat)
      requires WellBehaved(b) && NoneSpent(b, actions)
      ensures var whole := ProcessFrom(b, actions, package, header);
        && pass.threw == whole.threw
        && (!whole.threw ==> pass == whole && (!whole.errored ==> disposeCount == SpentCount(b, whole.actions)))
    {
      hide WellBehaved, KeepsPeer, NoneSpent, IsSpent, SpentCount, ProcessFrom, InitiateFrom, Remaining, Joined;
      ghost var whole := ProcessFrom(b, actions, package, header);
      var peer := header.peer;
      var initiate, errored, handled := false, false, false;
      var done: seq<Action<S>>, h, packet := [], header, package;
      var i := 0;
      disposeCount := 0;
      NotStarted(b, actions, package, header);
      while i < |actions| && !errored
        invariant i == |done| <= |actions|
        invariant KeepsPeer(b) && !initiate && !errored ==> h.peer == peer
        invariant disposeCount == SpentCount(b, done)
        invariant whole == Joined(done, handled, Remaining(b, initiate, errored, actions[i..], packet, h))
        decreases |actions| - i
      {
        Unspent(b, actions, i);
        if initiate {
          InitiateOne(b, done, handled, actions, i, packet, h);
          var r := b.initiate(actions[i], h);
          if r.Thrown? {
            return Pass(done, h, handled, false, true), disposeCount;
          }
          var a := r.value.0.(initiated := true);
          h, errored := r.value.1, a.errored;
          SpentPush(b, done, a);
          SpentMeans(b, a);
          done := done + [a];
          i := i + 1;
          if !a.completed {
            break;
          } else if !b.permanent(a.kind) {
            disposeCount := disposeCount + 1;
          }
          AfterError(b, errored, actions[i..], packet, h);
        } else {
          assert KeepsPeer(b) ==> h.peer == peer;
          ProcessOne(b, done, handled, actions, i, packet, h);
          var r := b.process(actions[i], packet, h);
          if r.Thrown? {
            return Pass(done, h, handled, false, true), disposeCount;
          }
          var v := r.value;
          HandledOne(b, actions[i], packet, h);
          SpentPush(b, done, v.action);
          SpentMeans(b, v.action);
          done := done + [v.action];
          packet, h, errored := v.package, v.header, v.action.errored;
          i := i + 1;
          if v.done {
            handled := true;
            if v.action.completed {
              initiate := true;
              if !b.permanent(v.action.kind) {
                disposeCount := disposeCount + 1;
              }
            }
          }
        }
      }
      AtEnd(b, initiate, errored, done, handled, actions, i, packet, h);
      pass := Pass(done + actions[i..], h, handled, errored, false);
      RestUnspent(b, actions, i);
      SpentRest(b, done, actions[i..]);
    }

    method Remove(peer: string)
      requires Valid()
      modifies this`sessions
      ensures Valid() && sessions == old(sessions) - {peer}
      ensures old(InOrder(sessions)) ==> InOrder(sessions)
    {
      WithoutProper(b, sessions, {peer});
      sessions := sessions - {peer};
    }

    // Forgets the sessions whose time to wait is over.
    method EraseAllPending(now: int)
      requires Valid()
      modifies this`sessions
      ensures Valid()
      ensures forall p :: p in sessions <==> p in old(sessions) && old(sessions)[p].waitUntil > now
      ensures forall p | p in sessions :: sessions[p] == old(sessions)[p]
      ensures old(InOrder(sessions)) ==> InOrder(sessions)
    {
      hide Sound, Pipelined, WellBehaved;
      sessions := map p | p in sessions && sessions[p].waitUntil > now :: sessions[p];
    }
  }

  // A session that has just handled a package outlasts a time exactly when its
  // duration, counted from now, does.
  method HandledWaits<S(!new), P(!new)>(m: SessionManager<S, P>, peer: string, package: P, now: int, time: int)
    returns (r: Result<bool>, stored: bool)
    requires m.Valid()
    modifies m
    ensures m.Valid()
    ensures r == Ok(true) ==> peer in old(m.sessions)
    ensures r == Ok(true) && stored ==> (peer in m.sessions <==> time < now + old(m.sessions)[peer].duration)
  {
    hide Proper, WellBehaved, TakeTurns, InOrder, ProcessFrom, ProcessedIn, ProcessTold, AllSpent, NeverFails,
      KeepsHeader;
    r := m.Process(peer, package, now);
    stored := peer in m.sessions;
    m.EraseAllPending(time);
  }

  lemma PermanentPush<S, P>(b: Behaviour<S, P>, actions: seq<Action<S>>, a: Action<S>)
    ensures PermanentKinds(b, actions + [a]) ==
      PermanentKinds(b, actions) + if b.permanent(a.kind) then {a.kind} else {}
  {
    var all := actions + [a];
    forall k
      ensures k in PermanentKinds(b, all) <==> k in PermanentKinds(b, actions) || (b.permanent(a.kind) && k == a.kind)
    {
      if k in PermanentKinds(b, actions) {
        var c :| c in actions && b.permanent(c.kind) && c.kind == k;
        assert c in all;
      }
      assert a in all;
    }
  }

  lemma OneInOrder<S>(m: Sessions<S>, found: Option<string>, s: Session<S>)
    requires if found.Some? then found.value in m && s == m[found.value] else s.actions == []
    ensures InOrder(m) ==> Pipelined(s.actions)
  {
  }

  lemma LeftOver<S, P>(b: Behaviour<S, P>, actions: seq<Action<S>>)
    ensures Sound(b, actions) ==> actions != []
  {
  }

  lemma NotStarted<S, P>(b: Behaviour<S, P>, actions: seq<Action<S>>, package: P, header: Header)
    ensures ProcessFrom(b, actions, package, header) ==
      Joined([], false, Remaining(b, false, false, actions[0..], package, header))
    ensures SpentCount(b, []) == 0
  {
    hide ProcessFrom;
    assert actions[0..] == actions;
  }

  lemma Unspent<S, P>(b: Behaviour<S, P>, actions: seq<Action<S>>, i: nat)
    requires NoneSpent(b, actions) && i < |actions|
    ensures !IsSpent(b, actions[i])
  {
    assert actions[i] in actions;
  }

  lemma RestUnspent<S, P>(b: Behaviour<S, P>, actions: seq<Action<S>>, i: nat)
    requires NoneSpent(b, actions) && i <= |actions|
    ensures NoneSpent(b, actions[i..])
  {
  }

  lemma SpentMeans<S, P>(b: Behaviour<S, P>, a: Action<S>)
    ensures IsSpent(b, a) <==> a.completed && !b.permanent(a.kind)
  {
  }

  lemma HandledOne<S(!new), P(!new)>(b: Behaviour<S, P>, a: Action<S>, package: P, header: Header)
    requires WellBehaved(b) && !IsSpent(b, a) && b.process(a, package, header).Ok?
    ensures var r := b.process(a, package, header).value; !r.done ==> !IsSpent(b, r.action)
    ensures var r := b.process(a, package, header).value;
      KeepsPeer(b) && GoesOn(r) ==> r.header.peer == header.peer
  {
  }

  lemma AfterError<S, P>(b: Behaviour<S, P>, errored: bool, actions: seq<Action<S>>, package: P, header: Header)
    ensures errored ==> Remaining(b, true, true, actions, package, header) == Pass(actions, header, false, true, false)
  {
  }

  lemma AtEnd<S, P>(
    b: Behaviour<S, P>, initiate: bool, errored: bool, done: seq<Action<S>>, handled: bool,
    actions: seq<Action<S>>, i: nat, package: P, header: Header)
    requires i <= |actions|
    ensures Joined(done, handled, Pass(actions[i..], header, false, errored, false)) ==
      Pass(done + actions[i..], header, handled, errored, false)
    ensures i == |actions| || errored ==>
      Joined(done, handled, Remaining(b, initiate, errored, actions[i..], package, header)) ==
        Pass(done + actions[i..], header, handled, errored, false)
  {
  }
}
