// What add and process do to a list of actions, told call by call: which
// action is given what, in which order, and what becomes of it.
module SessionTraces {
  import opened Wrappers
  import opened SessionActions

  // --- add ---

  // What becomes of one item: a permanent action of its type is there already,
  // or it is spent, or it is stored.
  datatype Fate<+S> = PassedOver | Spent(action: Action<S>) | Stored(action: Action<S>)

  function StoredOf<S>(fates: seq<Fate<S>>): seq<Action<S>> {
    if fates == [] then []
    else (if fates[0].Stored? then [fates[0].action] else []) + StoredOf(fates[1..])
  }

  ghost predicate IsPresent<S, P>(b: Behaviour<S, P>, actions: seq<Action<S>>, kind: nat) {
    b.permanent(kind) && exists a :: a in actions && a.kind == kind
  }

  // In its turn an item is initiated with the header of the moment, otherwise
  // it is taken as it is given.
  ghost predicate Becomes<S, P>(
    b: Behaviour<S, P>, turn: bool, item: Action<S>, h: Header, a: Action<S>, h': Header)
  {
    if turn then
      b.initiate(item, h).Ok? && a == b.initiate(item, h).value.0.(initiated := true)
      && h' == b.initiate(item, h).value.1 && !a.errored
    else a == item && h' == h
  }

  ghost predicate HasFate<S, P>(
    b: Behaviour<S, P>, before: seq<Action<S>>, turn: bool, item: Action<S>, h: Header, fate: Fate<S>, h': Header)
  {
    match fate
    case PassedOver => IsPresent(b, before, item.kind) && h' == h
    case Spent(a) =>
      !IsPresent(b, before, item.kind) && Becomes(b, turn, item, h, a, h') && a.completed && !b.permanent(a.kind)
    case Stored(a) =>
      !IsPresent(b, before, item.kind) && Becomes(b, turn, item, h, a, h') && (a.completed ==> b.permanent(a.kind))
  }

  // An item's turn has come when all that stands before it has completed.
  ghost predicate Fates<S, P>(
    b: Behaviour<S, P>, prior: seq<Action<S>>, turn: bool, items: seq<Action<S>>, fates: seq<Fate<S>>, hs: seq<Header>)
  {
    && |fates| == |items| && |hs| == |items| + 1
    && forall i | 0 <= i < |items| ::
      HasFate(b, prior + StoredOf(fates[..i]), turn && AllCompleted(StoredOf(fates[..i])),
              items[i], hs[i], fates[i], hs[i + 1])
  }

  lemma FatesFirst<S, P>(
    b: Behaviour<S, P>, prior: seq<Action<S>>, turn: bool, items: seq<Action<S>>, fates: seq<Fate<S>>, hs: seq<Header>,
    fate: Fate<S>, h: Header)
    requires items != [] && hs != []
    requires HasFate(b, prior, turn, items[0], h, fate, hs[0])
    requires Fates(b, prior + StoredOf([fate]), turn && AllCompleted(StoredOf([fate])), items[1..], fates, hs)
    ensures Fates(b, prior, turn, items, [fate] + fates, [h] + hs)
    ensures StoredOf([fate] + fates) == StoredOf([fate]) + StoredOf(fates)
  {
    hide HasFate;
    var all := [fate] + fates;
    assert all[1..] == fates && [fate][1..] == [];
    assert prior + StoredOf(all[..0]) == prior;
    forall i | 0 < i < |items|
      ensures HasFate(b, prior + StoredOf(all[..i]), turn && AllCompleted(StoredOf(all[..i])),
                      items[i], ([h] + hs)[i], all[i], ([h] + hs)[i + 1])
    {
      assert all[..i][1..] == fates[..i - 1];
      var one, rest := StoredOf([fate]), StoredOf(fates[..i - 1]);
      assert StoredOf(all[..i]) == one + rest;
      assert prior + (one + rest) == prior + one + rest;
      CompletedJoin(one, rest);
      assert items[1..][i - 1] == items[i];
    }
  }

  lemma CompletedJoin<S>(a: seq<Action<S>>, c: seq<Action<S>>)
    ensures AllCompleted(a + c) <==> AllCompleted(a) && AllCompleted(c)
  {
    if AllCompleted(a + c) {
      forall x | x in a ensures x.completed { assert x in a + c; }
      forall x | x in c ensures x.completed { assert x in a + c; }
    }
  }

  lemma PresentKind<S, P>(b: Behaviour<S, P>, actions: seq<Action<S>>, kind: nat)
    ensures IsPresent(b, actions, kind) <==> kind in PermanentKinds(b, actions)
  {
    if IsPresent(b, actions, kind) {
      var a :| a in actions && a.kind == kind;
    }
  }

  // The fate of the first item, and what it leaves to the others.
  lemma AddOne<S, P>(b: Behaviour<S, P>, items: seq<Action<S>>, prior: seq<Action<S>>, turn: bool, header: Header)
    returns (fate: Fate<S>, turn': bool, h': Header)
    requires items != [] && !AddFrom(b, items, prior, turn, header).Failed()
    ensures HasFate(b, prior, turn, items[0], header, fate, h')
    ensures turn' == (turn && AllCompleted(StoredOf([fate])))
    ensures var r := AddFrom(b, items, prior, turn, header);
      var rest := AddFrom(b, items[1..], prior + StoredOf([fate]), turn', h');
      !rest.Failed() && r.stored == rest.stored && r.header == rest.header
  {
    hide PermanentKinds, IsPresent, AllCompleted, StoredOf;
    var item := items[0];
    PresentKind(b, prior, item.kind);
    fate, h', turn' := PassedOver, header, turn;
    if item.kind !in PermanentKinds(b, prior) {
      var a := item;
      if turn {
        var r := b.initiate(item, header);
        a, h' := r.value.0.(initiated := true), r.value.1;
        turn' := a.completed;
      }
      fate := if IsSpent(b, a) then Spent(a) else Stored(a);
    }
    OneFate(fate, turn);
    assert prior + [] == prior;
  }

  // If add does not fail, every item has one of the three fates, and what is
  // stored is the old list followed by the stored items in their order.
  lemma {:induction false} AddTraced<S, P>(
    b: Behaviour<S, P>, items: seq<Action<S>>, prior: seq<Action<S>>, turn: bool, header: Header)
    returns (fates: seq<Fate<S>>, hs: seq<Header>)
    requires !AddFrom(b, items, prior, turn, header).Failed()
    ensures var r := AddFrom(b, items, prior, turn, header);
      && Fates(b, prior, turn, items, fates, hs) && hs[0] == header && hs[|items|] == r.header
      && r.stored == prior + StoredOf(fates)
    decreases |items|
  {
    hide AddFrom, HasFate, Fates, AllCompleted, StoredOf;
    if items == [] {
      fates, hs := [], [header];
      NoFates(b, prior, turn, header);
    } else {
      var fate, turn', h' := AddOne(b, items, prior, turn, header);
      var next := prior + StoredOf([fate]);
      fates, hs := AddTraced(b, items[1..], next, turn', h');
      FatesLength(b, next, turn', items[1..], fates, hs);
      FatesFirst(b, prior, turn, items, fates, hs, fate, header);
      assert prior + (StoredOf([fate]) + StoredOf(fates)) == next + StoredOf(fates);
      fates, hs := [fate] + fates, [header] + hs;
    }
  }

  lemma NoFates<S, P>(b: Behaviour<S, P>, prior: seq<Action<S>>, turn: bool, h: Header)
    ensures Fates(b, prior, turn, [], [], [h]) && prior + StoredOf<S>([]) == prior
    ensures AddFrom(b, [], prior, turn, h) == Adding(prior, h, false, false, false)
  {
  }

  lemma FatesLength<S, P>(
    b: Behaviour<S, P>, prior: seq<Action<S>>, turn: bool, items: seq<Action<S>>, fates: seq<Fate<S>>, hs: seq<Header>)
    requires Fates(b, prior, turn, items, fates, hs)
    ensures |fates| == |items| && |hs| == |items| + 1
  {
  }

  lemma OneFate<S>(fate: Fate<S>, turn: bool)
    ensures StoredOf([fate]) == if fate.Stored? then [fate.action] else []
    ensures AllCompleted(StoredOf([fate])) <==> fate.Stored? ==> fate.action.completed
  {
    assert [fate][1..] == [];
  }

  // Something is begun exactly when the last action had completed and some
  // item is not there already.
  lemma {:induction false} BegunWhen<S, P>(
    b: Behaviour<S, P>, items: seq<Action<S>>, prior: seq<Action<S>>, turn: bool, header: Header)
    requires !AddFrom(b, items, prior, turn, header).Failed()
    ensures AddFrom(b, items, prior, turn, header).began <==>
            turn && exists i :: 0 <= i < |items| && !IsPresent(b, prior, items[i].kind)
    decreases |items|
  {
    hide PermanentKinds, IsPresent;
    if items != [] {
      var item, rest := items[0], items[1..];
      PresentKind(b, prior, item.kind);
      if item.kind in PermanentKinds(b, prior) {
        BegunWhen(b, rest, prior, turn, header);
        assert forall i | 0 < i < |items| :: items[i] == rest[i - 1];
        if i :| 0 <= i < |rest| && !IsPresent(b, prior, rest[i].kind) {
          assert items[i + 1] == rest[i];
        }
      } else if !turn {
        BegunWhen(b, rest, if IsSpent(b, item) then prior else prior + [item], false, header);
      }
    }
  }

  // --- process ---

  ghost predicate Finishes<S, P>(b: Behaviour<S, P>, a: Action<S>, p: P, h: Header) {
    b.process(a, p, h).Ok? && b.process(a, p, h).value.done && b.process(a, p, h).value.action.completed
  }

  ghost predicate OfferedOne<S, P>(
    b: Behaviour<S, P>, a: Action<S>, p: P, h: Header, a': Action<S>, p': P, h': Header)
  {
    && b.process(a, p, h).Ok?
    && var r := b.process(a, p, h).value;
    r.action == a' && r.package == p' && r.header == h' && !a'.errored
  }

  ghost predicate BegunOne<S, P>(b: Behaviour<S, P>, a: Action<S>, h: Header, a': Action<S>, h': Header) {
    && b.initiate(a, h).Ok?
    && var r := b.initiate(a, h).value;
    r.0.(initiated := true) == a' && r.1 == h' && !a'.errored
  }

  // The actions are offered the package in turn, each with what the one before
  // it has left of package and header. None but the last finishes.
  ghost predicate Offers<S, P>(
    b: Behaviour<S, P>, actions: seq<Action<S>>, after: seq<Action<S>>, ps: seq<P>, hs: seq<Header>)
  {
    && |after| == |actions| && |ps| == |hs| == |actions| + 1
    && (forall i | 0 <= i < |actions| :: OfferedOne(b, actions[i], ps[i], hs[i], after[i], ps[i + 1], hs[i + 1]))
    && (forall i | 0 <= i < |actions| - 1 :: !Finishes(b, actions[i], ps[i], hs[i]))
  }

  // The actions are initiated in turn, up to and including the first that does
  // not complete; the others stay as they are.
  ghost predicate Begins<S, P>(b: Behaviour<S, P>, actions: seq<Action<S>>, after: seq<Action<S>>, hs: seq<Header>) {
    && |after| == |actions| && 1 <= |hs| <= |actions| + 1
    && var n := |hs| - 1;
    && (forall i | 0 <= i < n :: BegunOne(b, actions[i], hs[i], after[i], hs[i + 1]))
    && (forall i | 0 <= i < n - 1 :: after[i].completed)
    && (n < |actions| ==> n > 0 && !after[n - 1].completed)
    && (forall i | n <= i < |actions| :: after[i] == actions[i])
  }

  // The first |ps| - 1 actions are offered the package; if the last of them
  // finishes, the next are initiated.
  ghost predicate Told<S, P>(
    b: Behaviour<S, P>, actions: seq<Action<S>>, package: P, header: Header,
    after: seq<Action<S>>, header': Header, handled: bool, ps: seq<P>, hs: seq<Header>, next: seq<Header>)
  {
    && |after| == |actions| && 1 <= |ps| == |hs| <= |actions| + 1 && next != []
    && var n := |ps| - 1;
    && ps[0] == package && hs[0] == header
    && Offers(b, actions[..n], after[..n], ps, hs)
    && (n < |actions| ==> n > 0 && Finishes(b, actions[n - 1], ps[n - 1], hs[n - 1]))
    && next[0] == hs[n] && Begins(b, actions[n..], after[n..], next) && header' == next[|next| - 1]
    && (handled <==> exists i :: 0 <= i < n && IsDone(b, actions[i], ps[i], hs[i]))
  }

  ghost predicate IsDone<S, P>(b: Behaviour<S, P>, a: Action<S>, p: P, h: Header) {
    b.process(a, p, h).Ok? && b.process(a, p, h).value.done
  }

  lemma {:induction false} InitiateTraced<S, P>(b: Behaviour<S, P>, actions: seq<Action<S>>, header: Header)
    returns (hs: seq<Header>)
    requires !InitiateFrom(b, actions, header).Failed()
    ensures var r := InitiateFrom(b, actions, header);
      hs != [] && hs[0] == header && Begins(b, actions, r.actions, hs) && hs[|hs| - 1] == r.header
  {
    hs := [header];
    if actions != [] {
      var r := b.initiate(actions[0], header).value;
      var a := r.0.(initiated := true);
      if a.completed {
        var rest := InitiateFrom(b, actions[1..], r.1);
        var hs' := InitiateTraced(b, actions[1..], r.1);
        BeginsFirst(b, actions, rest.actions, hs', header);
        hs := [header] + hs';
      } else {
        hs := [header, r.1];
      }
    }
  }

  lemma BeginsFirst<S, P>(
    b: Behaviour<S, P>, actions: seq<Action<S>>, after: seq<Action<S>>, hs: seq<Header>, h: Header)
    requires actions != [] && Begins(b, actions[1..], after, hs)
    requires b.initiate(actions[0], h).Ok? && b.initiate(actions[0], h).value.1 == hs[0]
    requires var a := b.initiate(actions[0], h).value.0.(initiated := true); a.completed && !a.errored
    ensures Begins(b, actions, [b.initiate(actions[0], h).value.0.(initiated := true)] + after, [h] + hs)
  {
    var a := b.initiate(actions[0], h).value.0.(initiated := true);
    assert BegunOne(b, actions[0], h, a, hs[0]);
    BeginsMore(b, actions, after, hs, h, a);
  }

  lemma BeginsMore<S, P>(
    b: Behaviour<S, P>, actions: seq<Action<S>>, after: seq<Action<S>>, hs: seq<Header>, h: Header, a: Action<S>)
    requires actions != [] && Begins(b, actions[1..], after, hs) && BegunOne(b, actions[0], h, a, hs[0]) && a.completed
    ensures Begins(b, actions, [a] + after, [h] + hs)
  {
    hide BegunOne;
    var all, hs' := [a] + after, [h] + hs;
    forall i | 0 <= i < |hs| ensures BegunOne(b, actions[i], hs'[i], all[i], hs'[i + 1]) {
      if i > 0 {
        assert BegunOne(b, actions[1..][i - 1], hs[i - 1], after[i - 1], hs[i]);
      }
    }
    forall i | 0 <= i < |hs| - 1 ensures all[i].completed {
      if i > 0 {
        assert after[i - 1].completed;
      }
    }
    forall i | |hs| <= i < |actions| ensures all[i] == actions[i] {
      assert after[i - 1] == actions[1..][i - 1];
    }
  }

  // If process does not fail, the calls are those told.
  lemma {:induction false} ProcessTraced<S, P>(b: Behaviour<S, P>, actions: seq<Action<S>>, package: P, header: Header)
    returns (ps: seq<P>, hs: seq<Header>, next: seq<Header>)
    requires !ProcessFrom(b, actions, package, header).Failed()
    ensures var r := ProcessFrom(b, actions, package, header);
      Told(b, actions, package, header, r.actions, r.header, r.handled, ps, hs, next)
  {
    hide Told, Begins, Offers;
    var whole := ProcessFrom(b, actions, package, header);
    if actions == [] {
      ps, hs, next := [package], [header], [header];
      ToldNone(b, package, header);
    } else {
      var r := b.process(actions[0], package, header).value;
      if r.done && r.action.completed {
        var rest := InitiateFrom(b, actions[1..], r.header);
        next := InitiateTraced(b, actions[1..], r.header);
        ps, hs := [package, r.package], [header, r.header];
        ToldDone(b, actions, package, header, rest.actions, next);
      } else {
        var rest := ProcessFrom(b, actions[1..], r.package, r.header);
        ps, hs, next := ProcessTraced(b, actions[1..], r.package, r.header);
        ToldFirst(b, actions, package, header, rest.actions, rest.header, rest.handled, ps, hs, next);
        ps, hs := [package] + ps, [header] + hs;
      }
    }
  }

  lemma ToldNone<S, P>(b: Behaviour<S, P>, package: P, header: Header)
    ensures Told(b, [], package, header, [], header, false, [package], [header], [header])
  {
  }

  lemma ToldDone<S, P>(
    b: Behaviour<S, P>, actions: seq<Action<S>>, package: P, header: Header, after: seq<Action<S>>, next: seq<Header>)
    requires actions != [] && b.process(actions[0], package, header).Ok? && Finishes(b, actions[0], package, header)
    requires var r := b.process(actions[0], package, header).value;
      next != [] && next[0] == r.header && !r.action.errored && Begins(b, actions[1..], after, next)
    ensures var r := b.process(actions[0], package, header).value;
      Told(b, actions, package, header, [r.action] + after, next[|next| - 1], true,
           [package, r.package], [header, r.header], next)
  {
    var r := b.process(actions[0], package, header).value;
    var all, ps, hs := [r.action] + after, [package, r.package], [header, r.header];
    BeginsLength(b, actions[1..], after, next);
    assert actions[..1] == [actions[0]] && all[..1] == [r.action] && all[1..] == after;
    assert IsDone(b, actions[0], ps[0], hs[0]);
    assert Offers(b, actions[..1], all[..1], ps, hs);
  }

  lemma BeginsLength<S, P>(b: Behaviour<S, P>, actions: seq<Action<S>>, after: seq<Action<S>>, hs: seq<Header>)
    requires Begins(b, actions, after, hs)
    ensures |after| == |actions|
  {
  }

  lemma ToldFirst<S, P>(
    b: Behaviour<S, P>, actions: seq<Action<S>>, package: P, header: Header,
    after: seq<Action<S>>, header': Header, handled: bool, ps: seq<P>, hs: seq<Header>, next: seq<Header>)
    requires actions != [] && b.process(actions[0], package, header).Ok? && !Finishes(b, actions[0], package, header)
    requires var r := b.process(actions[0], package, header).value;
      !r.action.errored && Told(b, actions[1..], r.package, r.header, after, header', handled, ps, hs, next)
    ensures var r := b.process(actions[0], package, header).value;
      Told(b, actions, package, header, [r.action] + after, header', r.done
        || handled, [package] + ps, [header] + hs, next)
  {
    hide Begins, Offers, Finishes, IsDone;
    var r := b.process(actions[0], package, header).value;
    var n := |ps| - 1;
    var all, ps', hs' := [r.action] + after, [package] + ps, [header] + hs;
    assert actions[..n + 1][1..] == actions[1..][..n] && all[..n + 1] == [r.action] + after[..n];
    assert actions[n + 1..] == actions[1..][n..] && all[n + 1..] == after[n..];
    OffersFirst(b, actions[..n + 1], after[..n], ps, hs, package, header, r.action);
    DoneFirst(b, actions, ps, hs, package, header, n);
    DoneIs(b, actions[0], package, header);
    if n + 1 < |actions| {
      assert actions[1..][n - 1] == actions[n] && ps'[n] == ps[n - 1] && hs'[n] == hs[n - 1];
    }
  }

  lemma DoneIs<S, P>(b: Behaviour<S, P>, a: Action<S>, p: P, h: Header)
    requires b.process(a, p, h).Ok?
    ensures IsDone(b, a, p, h) <==> b.process(a, p, h).value.done
  {
  }

  lemma OffersFirst<S, P>(
    b: Behaviour<S, P>, actions: seq<Action<S>>, after: seq<Action<S>>, ps: seq<P>, hs: seq<Header>,
    p: P, h: Header, a: Action<S>)
    requires actions != [] && ps != [] && hs != [] && OfferedOne(b, actions[0], p, h, a, ps[0], hs[0])
    requires !Finishes(b, actions[0], p, h)
    requires Offers(b, actions[1..], after, ps, hs)
    ensures Offers(b, actions, [a] + after, [p] + ps, [h] + hs)
  {
    hide OfferedOne, Finishes;
    var all, ps', hs' := [a] + after, [p] + ps, [h] + hs;
    forall i | 0 <= i < |actions| ensures OfferedOne(b, actions[i], ps'[i], hs'[i], all[i], ps'[i + 1], hs'[i + 1]) {
      if i > 0 {
        assert OfferedOne(b, actions[1..][i - 1], ps[i - 1], hs[i - 1], after[i - 1], ps[i], hs[i]);
      }
    }
    forall i | 0 <= i < |actions| - 1 ensures !Finishes(b, actions[i], ps'[i], hs'[i]) {
      if i > 0 {
        assert !Finishes(b, actions[1..][i - 1], ps[i - 1], hs[i - 1]);
      }
    }
  }

  lemma DoneFirst<S, P>(
    b: Behaviour<S, P>, actions: seq<Action<S>>, ps: seq<P>, hs: seq<Header>, p: P, h: Header, n: nat)
    requires actions != [] && |ps| == |hs| == n + 1 && n < |actions|
    ensures (exists i :: 0 <= i < n + 1 && IsDone(b, actions[i], ([p] + ps)[i], ([h] + hs)[i])) <==>
            IsDone(b, actions[0], p, h) || exists i :: 0 <= i < n && IsDone(b, actions[1..][i], ps[i], hs[i])
  {
    var ps', hs' := [p] + ps, [h] + hs;
    if i :| 0 <= i < n + 1 && IsDone(b, actions[i], ps'[i], hs'[i]) {
      if i > 0 {
        assert IsDone(b, actions[1..][i - 1], ps[i - 1], hs[i - 1]);
      }
    }
    if i :| 0 <= i < n && IsDone(b, actions[1..][i], ps[i], hs[i]) {
      assert IsDone(b, actions[i + 1], ps'[i + 1], hs'[i + 1]);
    }
    if IsDone(b, actions[0], p, h) {
      assert IsDone(b, actions[0], ps'[0], hs'[0]);
    }
  }

  // --- Behaviours that neither err nor throw ---

  ghost predicate NeverFails<S(!new), P(!new)>(b: Behaviour<S, P>) {
    && (forall a, h :: b.initiate(a, h).Ok? && !b.initiate(a, h).value.0.errored)
    && (forall a, p, h :: b.process(a, p, h).Ok? && !b.process(a, p, h).value.action.errored)
  }

  lemma {:induction false} InitiateSucceeds<S(!new), P(!new)>(
    b: Behaviour<S, P>, actions: seq<Action<S>>, header: Header)
    requires NeverFails(b)
    ensures !InitiateFrom(b, actions, header).Failed()
  {
    if actions != [] {
      InitiateSucceeds(b, actions[1..], b.initiate(actions[0], header).value.1);
    }
  }

  lemma {:induction false} ProcessSucceeds<S(!new), P(!new)>(
    b: Behaviour<S, P>, actions: seq<Action<S>>, package: P, header: Header)
    requires NeverFails(b)
    ensures !ProcessFrom(b, actions, package, header).Failed()
  {
    if actions != [] {
      var r := b.process(actions[0], package, header).value;
      InitiateSucceeds(b, actions[1..], r.header);
      ProcessSucceeds(b, actions[1..], r.package, r.header);
    }
  }

  lemma {:induction false} AddSucceeds<S(!new), P(!new)>(
    b: Behaviour<S, P>, items: seq<Action<S>>, prior: seq<Action<S>>, turn: bool, header: Header)
    requires NeverFails(b)
    ensures !AddFrom(b, items, prior, turn, header).Failed()
    decreases |items|
  {
    hide PermanentKinds, IsSpent;
    if items != [] {
      var item := items[0];
      var r := b.initiate(item, header).value;
      var a := r.0.(initiated := true);
      AddSucceeds(b, items[1..], prior, turn, header);
      AddSucceeds(b, items[1..], if IsSpent(b, item) then prior else prior + [item], false, header);
      AddSucceeds(b, items[1..], if IsSpent(b, a) then prior else prior + [a], a.completed, r.1);
    }
  }
}
