// The distance between two ids: their exclusive or, computed byte by byte.
module XorDistance {
  import opened Radix

  // The number of the bits in which a and b differ.
  function Xor(a: nat, b: nat): nat {
    if a == 0 && b == 0 then 0 else 2 * Xor(a / 2, b / 2) + (a + b) % 2
  }

  function Bit(a: nat, i: nat): bool {
    if i == 0 then a % 2 == 1 else Bit(a / 2, i - 1)
  }

  lemma {:induction false} XorBit(a: nat, b: nat, i: nat)
    ensures Bit(Xor(a, b), i) == (Bit(a, i) != Bit(b, i))
  {
    hide Xor;
    XorHalves(a, b);
    if i > 0 {
      XorBit(a / 2, b / 2, i - 1);
    }
  }

  lemma XorHalves(a: nat, b: nat)
    ensures Xor(a, b) / 2 == Xor(a / 2, b / 2) && Xor(a, b) % 2 == (a + b) % 2
  {
  }

  lemma {:induction false} ZeroIffEqual(a: nat, b: nat)
    ensures Xor(a, b) == 0 <==> a == b
  {
    if a != 0 || b != 0 {
      ZeroIffEqual(a / 2, b / 2);
    }
  }

  lemma {:induction false} Symmetric(a: nat, b: nat)
    ensures Xor(a, b) == Xor(b, a)
  {
    if a != 0 || b != 0 {
      Symmetric(a / 2, b / 2);
    }
  }

  lemma {:induction false} Triangle(a: nat, b: nat, c: nat)
    ensures Xor(a, c) <= Xor(a, b) + Xor(b, c)
    decreases a + b + c
  {
    hide Xor;
    if a != 0 || b != 0 || c != 0 {
      XorHalves(a, b);
      XorHalves(b, c);
      XorHalves(a, c);
      Triangle(a / 2, b / 2, c / 2);
    } else {
      ZeroIffEqual(a, c);
    }
  }

  lemma {:induction false} Involution(a: nat, b: nat)
    ensures Xor(a, Xor(a, b)) == b
    decreases a + b
  {
    hide Xor;
    ZeroIffEqual(a, b);
    if a != 0 || b != 0 {
      XorHalves(a, b);
      XorHalves(a, Xor(a, b));
      Involution(a / 2, b / 2);
    }
  }

  // Seen from one origin, a distance belongs to one id only.
  lemma DistanceTellsId(origin: nat, a: nat, b: nat)
    ensures Xor(origin, a) == Xor(origin, b) <==> a == b
  {
    Involution(origin, a);
    Involution(origin, b);
  }

  lemma {:induction false} XorBound(a: nat, b: nat, n: nat)
    requires a < Pow(2, n) && b < Pow(2, n)
    ensures Xor(a, b) < Pow(2, n)
  {
    if n > 0 && (a != 0 || b != 0) {
      XorBound(a / 2, b / 2, n - 1);
    }
  }

  // --- Bytes ---

  function High(a: nat, p: nat): nat
    requires p > 0
  {
    a / p
  }

  function Low(a: nat, p: nat): nat
    requires p > 0
  {
    a % p
  }

  lemma HalfOfSplit(a: nat, p: nat)
    requires p > 0
    ensures Low(a, 2 * p) / 2 == Low(a / 2, p) && High(a, 2 * p) == High(a / 2, p)
    ensures Low(a, 2 * p) % 2 == a % 2
  {
    var q, r := a / 2 / p, a / 2 % p;
    assert a / 2 == q * p + r;
    var d := a % 2;
    assert a == (q * p + r) * 2 + d == q * (2 * p) + (2 * r + d);
    DigitOut(q, 2 * r + d, 2 * p);
  }

  // Low and high parts can be combined apart.
  ghost predicate SplitAt(a: nat, b: nat, p: nat) {
    p > 0 && Xor(a, b) == Xor(High(a, p), High(b, p)) * p + Xor(Low(a, p), Low(b, p))
  }

  lemma SplitStep(a: nat, b: nat, p: nat)
    requires SplitAt(a / 2, b / 2, p)
    ensures SplitAt(a, b, 2 * p)
  {
    hide Xor, High, Low;
    HalfOfSplit(a, p);
    HalfOfSplit(b, p);
    XorHalves(a, b);
    var ra, rb := Low(a, 2 * p), Low(b, 2 * p);
    XorHalves(ra, rb);
    ParityOfSum(a, b, ra, rb);
    Doubled(Xor(High(a, 2 * p), High(b, 2 * p)), p);
  }

  lemma Doubled(h: nat, p: nat)
    ensures 2 * (h * p) == h * (2 * p)
  {
  }

  lemma ParityOfSum(a: nat, b: nat, c: nat, d: nat)
    requires a % 2 == c % 2 && b % 2 == d % 2
    ensures (a + b) % 2 == (c + d) % 2
  {
  }

  lemma {:induction false} XorSplit(a: nat, b: nat, n: nat)
    ensures SplitAt(a, b, Pow(2, n))
  {
    if n > 0 {
      XorSplit(a / 2, b / 2, n - 1);
      SplitStep(a, b, Pow(2, n - 1));
    }
  }

  function Byte(a: nat, i: nat): (r: nat)
    ensures r < 256
  {
    PowPositive(256, i);
    Low(High(a, Pow(256, i)), 256)
  }

  function WithByte(a: nat, p: nat, v: nat): nat
    requires p > 0
  {
    (High(High(a, p), 256) * 256 + v) * p + Low(a, p)
  }

  function SetByte(a: nat, i: nat, v: nat): nat
    requires v < 256
  {
    PowPositive(256, i);
    WithByte(a, Pow(256, i), v)
  }

  function ByteCount(a: nat): nat {
    if a == 0 then 0 else 1 + ByteCount(a / 256)
  }

  lemma {:induction false} ByteCountBound(a: nat)
    ensures a < Pow(256, ByteCount(a))
  {
    if a > 0 {
      ByteCountBound(a / 256);
    }
  }

  lemma Parts(d: nat, r: nat, p: nat)
    requires r < p
    ensures High(d * p + r, p) == d && Low(d * p + r, p) == r
  {
    DigitOut(d, r, p);
  }

  lemma Rejoin(a: nat, p: nat)
    requires p > 0
    ensures a == High(a, p) * p + Low(a, p) && Low(a, p) < p
  {
  }

  lemma SplitAgain(a: nat, p: nat)
    requires p > 0
    ensures High(a, 256 * p) == High(High(a, p), 256)
    ensures Low(a, 256 * p) == Low(High(a, p), 256) * p + Low(a, p)
  {
    hide High, Low;
    var h, l := High(a, p), Low(a, p);
    var q, d := High(h, 256), Low(h, 256);
    Rejoin(a, p);
    Rejoin(h, 256);
    assert (q * 256 + d) * p == q * (256 * p) + d * p;
    MulMono(d, 255, p);
    Parts(q, d * p + l, 256 * p);
  }

  // The bytes below p hold the result, the others still those of start.
  ghost predicate Combined(result: nat, start: nat, a: nat, b: nat, p: nat) {
    p > 0 && High(result, p) == High(start, p) && Low(result, p) == Xor(Low(a, p), Low(b, p))
  }

  lemma WithByteParts(a: nat, p: nat, v: nat)
    requires p > 0 && v < 256
    ensures High(WithByte(a, p, v), 256 * p) == High(a, 256 * p)
    ensures Low(WithByte(a, p, v), 256 * p) == v * p + Low(a, p)
  {
    hide High, Low;
    Rejoin(a, p);
    var q := High(High(a, p), 256);
    Parts(q * 256 + v, Low(a, p), p);
    Parts(q, v, 256);
    SplitAgain(a, p);
    SplitAgain(WithByte(a, p, v), p);
  }

  lemma XorJoin(d: nat, e: nat, x: nat, y: nat, n: nat)
    requires x < Pow(2, n) && y < Pow(2, n)
    ensures Xor(d * Pow(2, n) + x, e * Pow(2, n) + y) == Xor(d, e) * Pow(2, n) + Xor(x, y)
  {
    hide Xor, Pow, High, Low;
    var p := Pow(2, n);
    XorSplit(d * p + x, e * p + y, n);
    Parts(d, x, p);
    Parts(e, y, p);
  }

  lemma CombineByte(result: nat, start: nat, a: nat, b: nat, i: nat)
    requires Combined(result, start, a, b, Pow(256, i)) && Xor(Byte(a, i), Byte(b, i)) < 256
    ensures Combined(SetByte(result, i, Xor(Byte(a, i), Byte(b, i))), start, a, b, Pow(256, i + 1))
  {
    hide Xor, Pow, High, Low, WithByte;
    var p := Pow(256, i);
    Next(i);
    WithByteParts(result, p, Xor(Byte(a, i), Byte(b, i)));
    SplitAgain(result, p);
    SplitAgain(start, p);
    SplitAgain(a, p);
    SplitAgain(b, p);
    Powers(i);
    Rejoin(a, p);
    Rejoin(b, p);
    XorJoin(Byte(a, i), Byte(b, i), Low(a, p), Low(b, p), 8 * i);
  }

  lemma Next(i: nat)
    ensures Pow(256, i + 1) == 256 * Pow(256, i) > 0
  {
    PowPositive(256, i + 1);
  }

  lemma Powers(i: nat)
    ensures Pow(256, i) == Pow(2, 8 * i)
  {
    PowMul(2, 8, i);
    assert Pow(2, 8) == 256;
  }

  lemma ByteXor(x: nat, y: nat)
    requires x < 256 && y < 256
    ensures Xor(x, y) < 256
  {
    assert Pow(2, 8) == 256;
    XorBound(x, y, 8);
  }

  // Nothing is combined yet.
  lemma CombineNone(start: nat, a: nat, b: nat)
    ensures Combined(start, start, a, b, Pow(256, 0))
  {
    assert Low(a, 1) == Low(b, 1) == 0;
  }

  lemma CombineAll(result: nat, start: nat, a: nat, b: nat, p: nat)
    requires Combined(result, start, a, b, p) && a < p && b < p && start < p
    ensures result == Xor(a, b)
  {
    hide Xor, High, Low;
    Parts(0, a, p);
    Parts(0, b, p);
    Parts(0, start, p);
    Rejoin(result, p);
  }

  // string_distance::operator-
  method Distance(a: nat, b: nat) returns (result: nat)
    ensures result == Xor(a, b)
  {
    hide Xor, Pow, Byte, SetByte, ByteCount, Combined, High, Low;
    ZeroIffEqual(a, b);
    if a == b {
      return 0;
    }
    result := if b > a then b else a;
    ghost var start := result;
    var sizeA, sizeB := ByteCount(a), ByteCount(b);
    var size := if sizeB > sizeA then sizeB else sizeA;
    CombineNone(start, a, b);
    for index := 0 to size
      invariant Combined(result, start, a, b, Pow(256, index))
    {
      PastEnd(a, index);
      PastEnd(b, index);
      var byteA, byteB := 0, 0;
      if index <= sizeA {
        byteA := Byte(a, index);
      }
      if index <= sizeB {
        byteB := Byte(b, index);
      }
      ByteXor(byteA, byteB);
      CombineByte(result, start, a, b, index);
      result := SetByte(result, index, Xor(byteA, byteB));
    }
    InSize(a, size);
    InSize(b, size);
    CombineAll(result, start, a, b, Pow(256, size));
  }

  lemma InSize(a: nat, size: nat)
    requires ByteCount(a) <= size
    ensures a < Pow(256, size)
  {
    ByteCountBound(a);
    PowMonoExp(256, ByteCount(a), size);
  }

  lemma PastEnd(a: nat, i: nat)
    ensures i > ByteCount(a) ==> Byte(a, i) == 0
  {
    if i > ByteCount(a) {
      InSize(a, i);
      Parts(0, a, Pow(256, i));
    }
  }

  // --- The index of a distance ---

  // size_t(0) - 1
  const NO_INDEX: nat := 0x1_0000_0000_0000_0000 - 1

  ghost predicate HasIndex(d: nat, i: nat) {
    Pow(2, i) <= d < Pow(2, i + 1)
  }

  // contact_actions::index_from_distance
  method IndexFromDistance(distance: nat) returns (cnt: nat)
    ensures cnt == Index(distance)
  {
    cnt := 0;
    var d := distance;
    while d > 0
      invariant cnt + Halvings(d) == Halvings(distance)
    {
      d := d / 2;
      cnt := cnt + 1;
    }
    cnt := if cnt == 0 then NO_INDEX else cnt - 1;
  }

  function Halvings(d: nat): nat {
    if d == 0 then 0 else 1 + Halvings(d / 2)
  }

  function Index(d: nat): nat {
    if d == 0 then NO_INDEX else Halvings(d) - 1
  }

  // The index is the floor of the binary logarithm.
  lemma {:induction false} IndexIsLog(d: nat)
    requires d > 0
    ensures HasIndex(d, Index(d))
  {
    if d > 1 {
      IndexIsLog(d / 2);
    } else {
      assert Halvings(d / 2) == 0;
    }
  }

  lemma IndexMonotone(d: nat, e: nat)
    requires 0 < d <= e
    ensures Index(d) <= Index(e)
  {
    IndexIsLog(d);
    IndexIsLog(e);
    if Index(e) < Index(d) {
      PowMonoExp(2, Index(e) + 1, Index(d));
    }
  }

  lemma IndexBelow(d: nat, n: nat)
    requires 0 < d < Pow(2, n)
    ensures Index(d) < n
  {
    IndexIsLog(d);
    if n <= Index(d) {
      PowMonoExp(2, n, Index(d));
    }
  }
}
