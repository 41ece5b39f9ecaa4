// The bounded container of contacts, ordered by their distance from the
// origin.
module KBuckets {
  import opened Wrappers
  import opened Radix
  import opened XorDistance

  const K: nat := 20

  // A Konnection: the node's id as text, and the peer it is reached through.
  datatype Contact = Contact(node: string, peer: string)

  type Digest = string -> nat

  ghost predicate Bits256(hash: Digest) {
    forall s :: hash(s) < Pow(2, 256)
  }

  // The empty node id is the number zero, it is not hashed.
  function Id(hash: Digest, node: string): nat {
    if node == "" then 0 else hash(node)
  }

  function Dist(hash: Digest, origin: string, c: Contact): nat {
    Xor(Id(hash, origin), Id(hash, c.node))
  }

  function Dists(hash: Digest, origin: string, cs: seq<Contact>): (ds: seq<nat>)
    ensures |ds| == |cs|
  {
    seq(|cs|, i requires 0 <= i < |cs| => Dist(hash, origin, cs[i]))
  }

  ghost predicate Increasing(ds: seq<nat>) {
    forall i, j | 0 <= i < j < |ds| :: ds[i] < ds[j]
  }

  // How many of the distances have index i.
  function Slot(ds: seq<nat>, i: nat): (n: nat)
    ensures n <= |ds|
  {
    if ds == [] then 0 else (if Index(ds[|ds| - 1]) == i then 1 else 0) + Slot(ds[..|ds| - 1], i)
  }

  // Different distances in order, none of them zero, at most K to an index.
  ghost predicate Bucketed(ds: seq<nat>) {
    && Increasing(ds)
    && (forall i | 0 <= i < |ds| :: 0 < ds[i] < Pow(2, 256))
    && (forall i: nat :: Slot(ds, i) <= K)
  }

  // --- How many contacts there can be ---

  lemma {:induction false} SlotBelow(ds: seq<nat>, i: nat, limit: nat)
    requires Increasing(ds) && (forall k | 0 <= k < |ds| :: 0 < ds[k] < limit)
    ensures Slot(ds, i) <= if limit <= Pow(2, i) then 0 else limit - Pow(2, i)
    ensures Slot(ds, i) <= Pow(2, i)
  {
    hide Pow, Index;
    if ds != [] {
      var rest, d := ds[..|ds| - 1], ds[|ds| - 1];
      if Index(d) == i {
        SlotBelow(rest, i, d);
        IndexIsLog(d);
        Doubling(i);
      } else {
        SlotBelow(rest, i, limit);
      }
    }
  }

  lemma Doubling(i: nat)
    ensures Pow(2, i + 1) == 2 * Pow(2, i) > 0
  {
    PowPositive(2, i);
  }

  function Capacity(i: nat): nat {
    if Pow(2, i) < K then Pow(2, i) else K
  }

  // There are only 2^i ids at index i.
  lemma SlotCapacity(ds: seq<nat>, i: nat)
    requires Bucketed(ds)
    ensures Slot(ds, i) <= Capacity(i)
  {
    SlotBelow(ds, i, Pow(2, 256));
  }

  function Slots(ds: seq<nat>, n: nat): nat {
    if n == 0 then 0 else Slots(ds, n - 1) + Slot(ds, n - 1)
  }

  function Capacities(n: nat): nat {
    if n == 0 then 0 else Capacities(n - 1) + Capacity(n - 1)
  }

  lemma {:induction false} SlotsPush(ds: seq<nat>, n: nat)
    requires ds != []
    ensures Slots(ds, n) == Slots(ds[..|ds| - 1], n) + if Index(ds[|ds| - 1]) < n then 1 else 0
  {
    hide Index;
    if n > 0 {
      SlotsPush(ds, n - 1);
    }
  }

  lemma {:induction false} SlotsNone(n: nat)
    ensures Slots([], n) == 0
  {
    if n > 0 {
      SlotsNone(n - 1);
    }
  }

  lemma {:induction false} SlotsAreAll(ds: seq<nat>, n: nat)
    requires forall k | 0 <= k < |ds| :: Index(ds[k]) < n
    ensures Slots(ds, n) == |ds|
  {
    hide Index;
    if ds == [] {
      SlotsNone(n);
    } else {
      SlotsPush(ds, n);
      SlotsAreAll(ds[..|ds| - 1], n);
    }
  }

  lemma {:induction false} SlotsWithin(ds: seq<nat>, n: nat)
    requires Bucketed(ds)
    ensures Slots(ds, n) <= Capacities(n)
  {
    hide Bucketed, Capacity;
    if n > 0 {
      SlotsWithin(ds, n - 1);
      SlotCapacity(ds, n - 1);
    }
  }

  lemma {:induction false} CapacitiesFrom5(n: nat)
    requires n >= 5
    ensures Capacities(n) == 31 + 20 * (n - 5)
  {
    if n > 5 {
      CapacitiesFrom5(n - 1);
      PowMonoExp(2, 5, n - 1);
      assert Pow(2, 5) == 32;
    }
  }

  // Never more than 5051 contacts, which is under 256 * K.
  lemma TotalCapacity(ds: seq<nat>)
    requires Bucketed(ds)
    ensures |ds| <= 5051 < 256 * K
  {
    hide Pow, Index, Slots, Capacities;
    forall k | 0 <= k < |ds| ensures Index(ds[k]) < 256 {
      IndexBelow(ds[k], 256);
    }
    SlotsAreAll(ds, 256);
    SlotsWithin(ds, 256);
    CapacitiesFrom5(256);
  }

  // --- Insertion and removal ---

  lemma {:induction false} SlotConcat(a: seq<nat>, b: seq<nat>, i: nat)
    ensures Slot(a + b, i) == Slot(a, i) + Slot(b, i)
  {
    hide Index;
    if b == [] {
      assert a + b == a;
    } else {
      SlotConcat(a, b[..|b| - 1], i);
      assert (a + b)[..|a + b| - 1] == a + b[..|b| - 1];
    }
  }

  // The first position whose distance is not below d.
  function Place(ds: seq<nat>, d: nat): (k: nat)
    ensures k <= |ds|
    ensures forall i | 0 <= i < k :: ds[i] < d
    ensures k < |ds| ==> ds[k] >= d
  {
    if ds == [] || ds[0] >= d then 0 else 1 + Place(ds[1..], d)
  }

  lemma SlotPutIn(ds: seq<nat>, d: nat, k: nat, i: nat)
    requires k <= |ds|
    ensures Slot(ds[..k] + [d] + ds[k..], i) == Slot(ds, i) + if Index(d) == i then 1 else 0
  {
    hide Index;
    assert ds == ds[..k] + ds[k..];
    SlotConcat(ds[..k], ds[k..], i);
    SlotConcat(ds[..k] + [d], ds[k..], i);
    SlotConcat(ds[..k], [d], i);
    assert [d][..0] == [];
  }

  lemma PutIn(ds: seq<nat>, d: nat)
    requires Bucketed(ds) && d !in ds && 0 < d < Pow(2, 256) && Slot(ds, Index(d)) < K
    ensures var k := Place(ds, d); Bucketed(ds[..k] + [d] + ds[k..])
  {
    hide Pow, Index, Slot;
    var k := Place(ds, d);
    var now := ds[..k] + [d] + ds[k..];
    assert Increasing(now);
    forall i: nat ensures Slot(now, i) <= K {
      SlotPutIn(ds, d, k, i);
    }
  }

  lemma TakeOut(ds: seq<nat>, first: nat, last: nat)
    requires Bucketed(ds) && first <= last <= |ds|
    ensures Bucketed(ds[..first] + ds[last..])
  {
    hide Pow, Index;
    var now := ds[..first] + ds[last..];
    forall i: nat ensures Slot(now, i) <= K {
      assert ds == ds[..first] + ds[first..last] + ds[last..];
      SlotConcat(ds[..first] + ds[first..last], ds[last..], i);
      SlotConcat(ds[..first], ds[first..last], i);
      SlotConcat(ds[..first], ds[last..], i);
    }
  }

  // --- The same, without an order: a set of contacts ---

  ghost function AtIndex(hash: Digest, origin: string, s: set<Contact>, i: nat): set<Contact> {
    set c | c in s && Index(Dist(hash, origin, c)) == i
  }

  ghost predicate HasNode(hash: Digest, s: set<Contact>, node: string) {
    exists c :: c in s && Id(hash, c.node) == Id(hash, node)
  }

  // What insert promises: nothing for the origin itself, for a node already
  // there or for a full index, and otherwise one contact more.
  ghost predicate Accepts(hash: Digest, origin: string, s: set<Contact>, c: Contact) {
    && Id(hash, c.node) != Id(hash, origin)
    && !HasNode(hash, s, c.node)
    && |AtIndex(hash, origin, s, Index(Dist(hash, origin, c)))| < K
  }

  ghost function WithContact(hash: Digest, origin: string, s: set<Contact>, c: Contact): set<Contact> {
    if Accepts(hash, origin, s, c) then s + {c} else s
  }

  ghost function WithoutNode(hash: Digest, s: set<Contact>, node: string): set<Contact> {
    set c | c in s && Id(hash, c.node) != Id(hash, node)
  }

  ghost function Elements(cs: seq<Contact>): set<Contact> {
    set c | c in cs
  }

  // The slot counts are the sizes of the sets.
  lemma {:induction false} SlotIsSize(hash: Digest, origin: string, cs: seq<Contact>, i: nat)
    requires Increasing(Dists(hash, origin, cs))
    ensures |AtIndex(hash, origin, Elements(cs), i)| == Slot(Dists(hash, origin, cs), i)
  {
    hide Index, Dist;
    if cs != [] {
      var n := |cs| - 1;
      var rest, c := cs[..n], cs[n];
      var ds := Dists(hash, origin, cs);
      assert Dists(hash, origin, rest) == ds[..n];
      SlotIsSize(hash, origin, rest, i);
      forall e | e in rest ensures e != c {
        var k :| 0 <= k < n && rest[k] == e;
        assert ds[k] < ds[n];
      }
      var before := AtIndex(hash, origin, Elements(rest), i);
      var now := AtIndex(hash, origin, Elements(cs), i);
      assert cs == rest + [c];
      if Index(Dist(hash, origin, c)) == i {
        assert now == before + {c};
      } else {
        assert now == before;
      }
    }
  }

  // The empty node id is there for exactly the contacts whose number is zero.
  lemma EmptyNode(hash: Digest, s: set<Contact>)
    ensures HasNode(hash, s, "") <==> exists c :: c in s && (c.node == "" || hash(c.node) == 0)
  {
  }

  // An ordered container is determined by its elements.
  lemma {:induction false} OrderDetermined(hash: Digest, origin: string, a: seq<Contact>, b: seq<Contact>)
    requires Increasing(Dists(hash, origin, a)) && Increasing(Dists(hash, origin, b))
    requires Elements(a) == Elements(b)
    ensures a == b
    decreases |a|
  {
    hide Dist;
    SomeElement(a);
    SomeElement(b);
    if a != [] {
      var da, db := Dists(hash, origin, a), Dists(hash, origin, b);
      assert a[0] in Elements(b);
      var k :| 0 <= k < |b| && b[k] == a[0];
      assert b[0] in Elements(a);
      var m :| 0 <= m < |a| && a[m] == b[0];
      assert da[m] == db[0] && db[k] == da[0];
      assert 0 < k ==> db[0] < db[k];
      RestElements(hash, origin, a);
      RestElements(hash, origin, b);
      assert a == [a[0]] + a[1..] && b == [b[0]] + b[1..];
      OrderDetermined(hash, origin, a[1..], b[1..]);
    }
  }

  lemma SomeElement(a: seq<Contact>)
    ensures a != [] ==> Elements(a) != {}
  {
    if a != [] {
      assert a[0] in Elements(a);
    }
  }

  lemma RestElements(hash: Digest, origin: string, a: seq<Contact>)
    requires a != [] && Increasing(Dists(hash, origin, a))
    ensures Elements(a[1..]) == Elements(a) - {a[0]} && Increasing(Dists(hash, origin, a[1..]))
  {
    hide Dist;
    var ds := Dists(hash, origin, a);
    assert Dists(hash, origin, a[1..]) == ds[1..];
    assert a == [a[0]] + a[1..];
    forall c | c in a[1..] ensures c != a[0] {
      var k :| 0 <= k < |a| - 1 && a[1..][k] == c;
      assert ds[0] < ds[k + 1];
    }
  }

  class KBucket {
    const hash: Digest
    const origin: Contact
    var contacts: seq<Contact>

    ghost predicate Valid()
      reads this
    {
      Bits256(hash) && Bucketed(Dists(hash, origin.node, contacts))
    }

    ghost function Contents(): set<Contact>
      reads this
    {
      Elements(contacts)
    }

    constructor (hash: Digest, origin: Contact)
      requires Bits256(hash)
      ensures Valid() && this.hash == hash && this.origin == origin && contacts == []
    {
      this.hash := hash;
      this.origin := origin;
      contacts := [];
      new;
      assert Dists(hash, origin.node, []) == [];
    }

    // The position of the node, or the end.
    method Find(node: string) returns (pos: nat)
      requires Valid()
      ensures pos <= |contacts|
      ensures pos < |contacts| <==> HasNode(hash, Contents(), node)
      ensures pos < |contacts| ==> Id(hash, contacts[pos].node) == Id(hash, node)
      ensures forall i | 0 <= i < |contacts| && Id(hash, contacts[i].node) == Id(hash, node) :: i == pos
    {
      hide Bucketed;
      pos := 0;
      while pos < |contacts|
        invariant pos <= |contacts|
        invariant forall i | 0 <= i < pos :: Id(hash, contacts[i].node) != Id(hash, node)
      {
        var distance := Distance(Id(hash, node), Id(hash, contacts[pos].node));
        ZeroIffEqual(Id(hash, node), Id(hash, contacts[pos].node));
        if distance == 0 {
          OneOfItsKind(pos);
          assert contacts[pos] in Contents();
          return;
        }
        pos := pos + 1;
      }
    }

    lemma OneOfItsKind(pos: nat)
      requires Valid() && pos < |contacts|
      ensures forall i | 0 <= i < |contacts| && Id(hash, contacts[i].node) == Id(hash, contacts[pos].node) :: i == pos
    {
      var ds := Dists(hash, origin.node, contacts);
      forall i | 0 <= i < |contacts| && Id(hash, contacts[i].node) == Id(hash, contacts[pos].node) ensures i == pos {
        assert ds[i] == ds[pos];
      }
    }

    method CountAt(index: nat) returns (count: nat)
      ensures count == Slot(Dists(hash, origin.node, contacts), index)
    {
      ghost var ds := Dists(hash, origin.node, contacts);
      count := 0;
      var i := 0;
      while i < |contacts|
        invariant i <= |contacts| && count == Slot(ds[..i], index)
      {
        var distance := Distance(Id(hash, origin.node), Id(hash, contacts[i].node));
        var at := IndexFromDistance(distance);
        assert ds[..i + 1][..i] == ds[..i];
        if at == index {
          count := count + 1;
        }
        i := i + 1;
      }
      assert ds[..i] == ds;
    }

    // Adds the contact at its place, unless the container accepts no more of
    // its index or has the node already. The origin is refused by throwing.
    method Insert(contact: Contact) returns (r: Result<bool>)
      requires Valid()
      modifies this`contacts
      ensures Valid()
      ensures r.Thrown? <==> Id(hash, contact.node) == Id(hash, origin.node)
      ensures r.Ok? ==> r.value == Accepts(hash, origin.node, old(Contents()), contact)
      ensures Contents() == WithContact(hash, origin.node, old(Contents()), contact)
      ensures Contents() == if r == Ok(true) then old(Contents()) + {contact} else old(Contents())
      ensures r == Ok(true) <==>
        && Id(hash, contact.node) != Id(hash, origin.node)
        && (forall c | c in old(Contents()) :: Id(hash, c.node) != Id(hash, contact.node))
        && |set c | c in old(Contents()) && Index(Xor(Id(hash, origin.node), Id(hash, c.node)))
                      == Index(Xor(Id(hash, origin.node), Id(hash, contact.node)))| < 20
      ensures r != Ok(true) ==> contacts == old(contacts)
    {
      hide Bucketed, Index;
      SameIndex(contact);
      var distance := Distance(Id(hash, origin.node), Id(hash, contact.node));
      ZeroIffEqual(Id(hash, origin.node), Id(hash, contact.node));
      if distance == 0 {
        return Thrown;
      }
      var index := IndexFromDistance(distance);
      var indexCount := CountAt(index);
      InOrder();
      SlotIsSize(hash, origin.node, contacts, index);
      if indexCount >= K {
        return Ok(false);
      }
      var k := Place(Dists(hash, origin.node, contacts), distance);
      PlaceTells(contact, k);
      if k < |contacts| && Dist(hash, origin.node, contacts[k]) == distance {
        return Ok(false);
      }
      contacts := contacts[..k] + [contact] + contacts[k..];
      return Ok(true);
    }

    lemma SameIndex(contact: Contact)
      ensures AtIndex(hash, origin.node, Contents(), Index(Dist(hash, origin.node, contact))) ==
        set c | c in Contents() && Index(Xor(Id(hash, origin.node), Id(hash, c.node)))
                                == Index(Xor(Id(hash, origin.node), Id(hash, contact.node)))
      ensures HasNode(hash, Contents(), contact.node) <==>
        !forall c | c in Contents() :: Id(hash, c.node) != Id(hash, contact.node)
    {
    }

    lemma InOrder()
      requires Valid()
      ensures Increasing(Dists(hash, origin.node, contacts))
    {
    }

    // Looking at the place is enough to know whether the node is there.
    lemma PlaceTells(contact: Contact, k: nat)
      requires Valid() && k == Place(Dists(hash, origin.node, contacts), Dist(hash, origin.node, contact))
      requires Dist(hash, origin.node, contact) > 0
      requires Slot(Dists(hash, origin.node, contacts), Index(Dist(hash, origin.node, contact))) < K
      ensures HasNode(hash, Contents(), contact.node) <==>
        k < |contacts| && Dist(hash, origin.node, contacts[k]) == Dist(hash, origin.node, contact)
      ensures !HasNode(hash, Contents(), contact.node) ==>
        Bucketed(Dists(hash, origin.node, contacts[..k] + [contact] + contacts[k..]))
      ensures Elements(contacts[..k] + [contact] + contacts[k..]) == Contents() + {contact}
    {
      hide Index, Pow, Slot, Xor, Place, Bucketed, Bits256, HasNode, Dist;
      var ds, d := Dists(hash, origin.node, contacts), Dist(hash, origin.node, contact);
      InOrder();
      SameNode(contact);
      FoundAtPlace(ds, d);
      assert contacts == contacts[..k] + contacts[k..];
      if !HasNode(hash, Contents(), contact.node) {
        Small(contact);
        PutIn(ds, d);
        assert Dists(hash, origin.node, contacts[..k] + [contact] + contacts[k..]) == ds[..k] + [d] + ds[k..];
      }
    }

    lemma FoundAtPlace(ds: seq<nat>, d: nat)
      requires Increasing(ds)
      ensures var k := Place(ds, d); d in ds <==> k < |ds| && ds[k] == d
    {
      var k := Place(ds, d);
      if k < |ds| && ds[k] > d {
        forall i: nat | i < |ds| ensures ds[i] != d {
          assert k < i ==> ds[k] < ds[i];
        }
      }
    }

    // The node is there exactly when its distance is.
    lemma SameNode(contact: Contact)
      ensures HasNode(hash, Contents(), contact.node) <==>
        Dist(hash, origin.node, contact) in Dists(hash, origin.node, contacts)
    {
      hide Xor;
      var ds, d := Dists(hash, origin.node, contacts), Dist(hash, origin.node, contact);
      forall i: nat | i < |contacts| ensures ds[i] == d <==> Id(hash, contacts[i].node) == Id(hash, contact.node) {
        DistanceTellsId(Id(hash, origin.node), Id(hash, contacts[i].node), Id(hash, contact.node));
      }
      if HasNode(hash, Contents(), contact.node) {
        var c :| c in Contents() && Id(hash, c.node) == Id(hash, contact.node);
        var i: nat :| i < |contacts| && contacts[i] == c;
        assert ds[i] == d;
      }
      if d in ds {
        var i: nat :| i < |ds| && ds[i] == d;
        assert contacts[i] in Contents();
      }
    }

    lemma Small(contact: Contact)
      requires Valid()
      ensures Dist(hash, origin.node, contact) < Pow(2, 256)
    {
      hide Pow, Xor, Bucketed;
      PowPositive(2, 256);
      XorBound(Id(hash, origin.node), Id(hash, contact.node), 256);
    }

    method EraseRange(first: nat, last: nat)
      requires Valid() && first <= last <= |contacts|
      modifies this`contacts
      ensures Valid() && contacts == old(contacts[..first] + contacts[last..])
    {
      hide Bucketed;
      ghost var ds := Dists(hash, origin.node, contacts);
      TakeOut(ds, first, last);
      contacts := contacts[..first] + contacts[last..];
      assert Dists(hash, origin.node, contacts) == ds[..first] + ds[last..];
    }

    // Takes the node out, wherever it stands.
    method Erase(node: string)
      requires Valid()
      modifies this`contacts
      ensures Valid() && Contents() == WithoutNode(hash, old(Contents()), node)
      ensures forall c :: c in Contents() <==> c in old(Contents()) && Id(hash, c.node) != Id(hash, node)
    {
      hide Bucketed;
      var it := Find(node);
      if it != |contacts| {
        EraseRange(it, it + 1);
      }
    }

    method Clear()
      requires Valid()
      modifies this`contacts
      ensures Valid() && contacts == []
    {
      contacts := [];
      assert Dists(hash, origin.node, []) == [];
    }

    // The ids, nearest first.
    method NodeIds() returns (result: seq<string>)
      ensures |result| == |contacts| && forall i | 0 <= i < |result| :: result[i] == contacts[i].node
    {
      result := [];
      var it := 0;
      while it < |contacts|
        invariant it == |result| <= |contacts|
        invariant forall i | 0 <= i < it :: result[i] == contacts[i].node
      {
        result := result + [contacts[it].node];
        it := it + 1;
      }
    }
  }
}
