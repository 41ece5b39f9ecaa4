// Whole runs of the contact container.
module KBucketRuns {
  import opened Wrappers
  import opened Radix
  import opened XorDistance
  import opened KBuckets

  datatype Op = Insert(contact: Contact) | Erase(node: string) | Clear

  ghost function Step(hash: Digest, origin: string, s: set<Contact>, op: Op): set<Contact> {
    match op
    case Insert(contact) => WithContact(hash, origin, s, contact)
    case Erase(node) => WithoutNode(hash, s, node)
    case Clear => {}
  }

  ghost function After(hash: Digest, origin: string, ops: seq<Op>): set<Contact> {
    if ops == [] then {} else Step(hash, origin, After(hash, origin, ops[..|ops| - 1]), ops[|ops| - 1])
  }

  // Few enough contacts at each index and in all, never the origin, and no
  // node twice.
  ghost predicate Bounded(hash: Digest, origin: string, s: set<Contact>) {
    && |s| <= 5051
    && (forall i: nat :: |AtIndex(hash, origin, s, i)| <= Capacity(i))
    && (forall c | c in s :: Id(hash, c.node) != Id(hash, origin))
    && (forall c, e | c in s && e in s && Id(hash, c.node) == Id(hash, e.node) :: c == e)
  }

  lemma {:induction false} SizeOfElements(hash: Digest, origin: string, cs: seq<Contact>)
    requires Increasing(Dists(hash, origin, cs))
    ensures |Elements(cs)| == |cs|
  {
    hide Dist;
    if cs != [] {
      assert cs[0] in Elements(cs);
      RestElements(hash, origin, cs);
      SizeOfElements(hash, origin, cs[1..]);
    }
  }

  // What the order and the slot counts mean for the set of contacts.
  lemma BucketedIsBounded(hash: Digest, origin: string, cs: seq<Contact>)
    requires Bucketed(Dists(hash, origin, cs))
    ensures Bounded(hash, origin, Elements(cs))
  {
    hide Xor, Index, Pow, Slot, Capacity;
    var ds, s := Dists(hash, origin, cs), Elements(cs);
    TotalCapacity(ds);
    SizeOfElements(hash, origin, cs);
    forall i: nat ensures |AtIndex(hash, origin, s, i)| <= Capacity(i) {
      SlotIsSize(hash, origin, cs, i);
      SlotCapacity(ds, i);
    }
    forall c | c in s ensures Id(hash, c.node) != Id(hash, origin) {
      var i: nat :| i < |cs| && cs[i] == c;
      assert ds[i] > 0;
      ZeroIffEqual(Id(hash, origin), Id(hash, c.node));
    }
    forall c, e | c in s && e in s && Id(hash, c.node) == Id(hash, e.node) ensures c == e {
      var i: nat :| i < |cs| && cs[i] == c;
      var j: nat :| j < |cs| && cs[j] == e;
      assert ds[i] == ds[j];
    }
  }

  method Do(b: KBucket, op: Op)
    requires b.Valid()
    modifies b
    ensures b.Valid() && b.Contents() == Step(b.hash, b.origin.node, old(b.Contents()), op)
  {
    hide Bucketed, Accepts;
    match op
    case Insert(contact) => { var r := b.Insert(contact); }
    case Erase(node) => { b.Erase(node); }
    case Clear => { b.Clear(); }
  }

  // Any sequence of operations leaves what the sets say, within the bounds.
  method Run(hash: Digest, origin: Contact, ops: seq<Op>) returns (b: KBucket)
    requires Bits256(hash)
    ensures fresh(b) && b.Valid()
    ensures b.Contents() == After(hash, origin.node, ops)
    ensures Bounded(hash, origin.node, b.Contents())
  {
    hide Bucketed, Bounded, Step;
    b := new KBucket(hash, origin);
    var i := 0;
    while i < |ops|
      invariant i <= |ops| && b.Valid() && b.hash == hash && b.origin == origin
      invariant b.Contents() == After(hash, origin.node, ops[..i])
    {
      Do(b, ops[i]);
      assert ops[..i + 1][..i] == ops[..i];
      i := i + 1;
    }
    assert ops[..i] == ops;
    BucketedIsBounded(hash, origin.node, b.contacts);
  }
}
