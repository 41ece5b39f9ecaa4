// The format of one block file: a file of bytes plus a list of markers.
// Marker i says that bytes [start, end) hold one encoded row, and keeps the
// hash of that row's key. An image is what a loader reads: both files at once.
module BlockFormat {
  import opened Wrappers

  newtype byte = x: int | 0 <= x < 256
  type Bytes = seq<byte>

  datatype Row<+K, +V> = Row(key: K, value: V)

  // The generated to_string/from_string pair of a row type and the key hash.
  // Nothing is assumed about the hash: it may collide.
  datatype Codec<!K, !V> = Codec(
    encode: Row<K, V> -> Bytes,
    decode: Bytes -> Option<Row<K, V>>,
    hash: K -> nat,
    empty: V)

  ghost predicate Lossless<K(!new), V(!new)>(c: Codec<K, V>) {
    forall r: Row<K, V> :: |c.encode(r)| > 0 && c.decode(c.encode(r)) == Some(r)
  }

  datatype Marker = Marker(start: nat, end: nat, key: nat)

  datatype Image = Image(bytes: Bytes, markers: seq<Marker>)

  // What the loader checks while it reads a marker file.
  predicate PassesChecks(ms: seq<Marker>) {
    && (forall i | 0 <= i < |ms| :: ms[i].start < ms[i].end)
    && (forall i | 0 < i < |ms| :: ms[i - 1].end <= ms[i].start)
  }

  // Sorted and non-overlapping, stated for any two markers.
  ghost predicate Ordered(ms: seq<Marker>) {
    && (forall i | 0 <= i < |ms| :: ms[i].start < ms[i].end)
    && (forall i, j | 0 <= i < j < |ms| :: ms[i].end <= ms[j].start)
  }

  lemma {:induction false} ChecksMeanOrdered(ms: seq<Marker>)
    ensures PassesChecks(ms) <==> Ordered(ms)
  {
    if PassesChecks(ms) && |ms| > 0 {
      var n := |ms| - 1;
      ChecksMeanOrdered(ms[..n]);
      assert forall i, j | 0 <= i < j < n :: ms[..n][i].end <= ms[..n][j].start;
      forall i | 0 <= i < n ensures ms[i].end <= ms[n].start {
        if i < n - 1 {
          assert ms[i].end <= ms[n - 1].start < ms[n - 1].end <= ms[n].start;
        }
      }
    }
  }

  lemma OrderedAppend(ms: seq<Marker>, m: Marker)
    requires Ordered(ms) && End(ms) <= m.start < m.end
    ensures Ordered(ms + [m])
  {
    EndIsLast(ms);
  }

  lemma EndIsLast(ms: seq<Marker>)
    requires Ordered(ms)
    ensures forall i | 0 <= i < |ms| :: ms[i].end <= End(ms)
  {
    forall i | 0 <= i < |ms| ensures ms[i].end <= End(ms) {
      if i < |ms| - 1 {
        assert ms[i].end <= ms[|ms| - 1].start;
      }
    }
  }

  function End(ms: seq<Marker>): nat {
    if ms == [] then 0 else ms[|ms| - 1].end
  }

  predicate Within(bytes: Bytes, m: Marker) {
    m.start <= m.end <= |bytes|
  }

  function Chunk(bytes: Bytes, m: Marker): Bytes {
    if Within(bytes, m) then bytes[m.start..m.end] else []
  }

  predicate Selects<K(==), V(==)>(c: Codec<K, V>, bytes: Bytes, m: Marker, r: Row<K, V>) {
    && Within(bytes, m)
    && c.decode(Chunk(bytes, m)) == Some(r)
    && m.key == c.hash(r.key)
  }

  // The markers are in order and the i-th one selects the i-th row.
  ghost predicate Lays<K, V>(c: Codec<K, V>, bytes: Bytes, ms: seq<Marker>, rows: seq<Row<K, V>>) {
    && |ms| == |rows|
    && Ordered(ms)
    && (forall i | 0 <= i < |ms| :: Selects(c, bytes, ms[i], rows[i]))
  }

  ghost predicate Distinct<K, V>(rows: seq<Row<K, V>>) {
    forall i, j | 0 <= i < j < |rows| :: rows[i].key != rows[j].key
  }

  ghost function KeysOf<K, V>(rows: seq<Row<K, V>>): set<K> {
    set r | r in rows :: r.key
  }

  // The key-to-value map a list of rows stands for.
  ghost function MapOf<K, V>(rows: seq<Row<K, V>>): (t: map<K, V>)
    requires Distinct(rows)
    ensures t.Keys == KeysOf(rows)
    ensures forall i | 0 <= i < |rows| :: rows[i].key in t && t[rows[i].key] == rows[i].value
  {
    map r | r in rows :: r.key := r.value
  }

  // An image whose rows are all readable and have different keys.
  ghost predicate Sound<K(!new), V(!new)>(c: Codec<K, V>, img: Image) {
    exists rows :: Lays(c, img.bytes, img.markers, rows) && Distinct(rows)
  }

  ghost function Rows<K(!new), V(!new)>(c: Codec<K, V>, img: Image): (rows: seq<Row<K, V>>)
    requires Sound(c, img)
    ensures Lays(c, img.bytes, img.markers, rows) && Distinct(rows)
  {
    var rows :| Lays(c, img.bytes, img.markers, rows) && Distinct(rows);
    rows
  }

  ghost function Table<K(!new), V(!new)>(c: Codec<K, V>, img: Image): map<K, V>
    requires Sound(c, img)
  {
    MapOf(Rows(c, img))
  }

  // Marker i can select one row only.
  lemma LaysUnique<K, V>(c: Codec<K, V>, bytes: Bytes, ms: seq<Marker>, rows: seq<Row<K, V>>, rows': seq<Row<K, V>>)
    requires Lays(c, bytes, ms, rows) && Lays(c, bytes, ms, rows')
    ensures rows == rows'
  {
    forall i | 0 <= i < |rows| ensures rows[i] == rows'[i] {
      assert Selects(c, bytes, ms[i], rows[i]) && Selects(c, bytes, ms[i], rows'[i]);
    }
  }

  lemma LaysSound<K(!new), V(!new)>(c: Codec<K, V>, img: Image, rows: seq<Row<K, V>>)
    requires Lays(c, img.bytes, img.markers, rows) && Distinct(rows)
    ensures Sound(c, img) && Rows(c, img) == rows && Table(c, img) == MapOf(rows)
  {
    LaysUnique(c, img.bytes, img.markers, rows, Rows(c, img));
  }

  lemma EmptySound<K(!new), V(!new)>(c: Codec<K, V>, bytes: Bytes)
    ensures Sound(c, Image(bytes, [])) && Rows(c, Image(bytes, [])) == [] && Table(c, Image(bytes, [])) == map[]
  {
    LaysSound(c, Image(bytes, []), []);
  }

  lemma EndCovers<K, V>(c: Codec<K, V>, bytes: Bytes, ms: seq<Marker>, rows: seq<Row<K, V>>)
    requires Lays(c, bytes, ms, rows)
    ensures End(ms) <= |bytes|
    ensures forall i | 0 <= i < |ms| :: ms[i].end <= End(ms)
  {
    if ms != [] {
      assert Selects(c, bytes, ms[|ms| - 1], rows[|ms| - 1]);
    }
  }

  // Only the bytes below the last marker's end matter.
  lemma LaysBelowEnd<K, V>(c: Codec<K, V>, bytes: Bytes, bytes': Bytes, ms: seq<Marker>, rows: seq<Row<K, V>>)
    requires Lays(c, bytes, ms, rows)
    requires End(ms) <= |bytes| && End(ms) <= |bytes'| && bytes[..End(ms)] == bytes'[..End(ms)]
    ensures Lays(c, bytes', ms, rows)
  {
    EndCovers(c, bytes, ms, rows);
    var e := End(ms);
    forall i | 0 <= i < |ms| ensures Selects(c, bytes', ms[i], rows[i]) {
      var m := ms[i];
      assert Selects(c, bytes, m, rows[i]);
      assert bytes[m.start..m.end] == bytes[..e][m.start..m.end];
      assert bytes'[m.start..m.end] == bytes'[..e][m.start..m.end];
    }
  }

  // Appending one encoded row at the end of the bytes.
  lemma LaysAppend<K(!new), V(!new)>(c: Codec<K, V>, bytes: Bytes, ms: seq<Marker>, rows: seq<Row<K, V>>, r: Row<K, V>)
    requires Lossless(c) && Lays(c, bytes, ms, rows)
    ensures Lays(c, bytes + c.encode(r),
                 ms + [Marker(|bytes|, |bytes| + |c.encode(r)|, c.hash(r.key))],
                 rows + [r])
  {
    EndCovers(c, bytes, ms, rows);
    var b := bytes + c.encode(r);
    assert bytes[..End(ms)] == b[..End(ms)];
    LaysBelowEnd(c, bytes, b, ms, rows);
    var m := Marker(|bytes|, |b|, c.hash(r.key));
    assert Chunk(b, m) == c.encode(r);
    assert Selects(c, b, m, r);
    assert Ordered(ms + [m]);
  }

  // The elements whose position is not in drop, in order.
  function KeepIndices<T>(s: seq<T>, drop: set<nat>): (r: seq<T>) {
    if s == [] then []
    else
      var n := |s| - 1;
      KeepIndices(s[..n], drop) + (if n in drop then [] else [s[n]])
  }

  lemma {:induction false} KeepMembers<T>(s: seq<T>, drop: set<nat>)
    ensures |KeepIndices(s, drop)| <= |s|
    ensures forall x :: x in KeepIndices(s, drop) <==> exists i | 0 <= i < |s| && i !in drop :: s[i] == x
  {
    if s != [] {
      var n := |s| - 1;
      KeepMembers(s[..n], drop);
      forall x ensures x in KeepIndices(s, drop) <==> exists i | 0 <= i < |s| && i !in drop :: s[i] == x {
        if x in KeepIndices(s[..n], drop) {
          var i :| 0 <= i < n && i !in drop && s[..n][i] == x;
          assert s[i] == x;
        }
        if i :| 0 <= i < |s| && i !in drop && s[i] == x {
          if i < n { assert s[..n][i] == x; }
        }
      }
    }
  }

  lemma KeepKept<T>(s: seq<T>, drop: set<nat>, i: nat)
    requires i < |s| && i !in drop
    ensures s[i] in KeepIndices(s, drop)
  {
    KeepMembers(s, drop);
  }

  lemma KeepSource<T>(s: seq<T>, drop: set<nat>, x: T) returns (i: nat)
    requires x in KeepIndices(s, drop)
    ensures i < |s| && i !in drop && s[i] == x
  {
    KeepMembers(s, drop);
    i :| i < |s| && i !in drop && s[i] == x;
  }

  lemma {:induction false} KeepDistinct<K, V>(rows: seq<Row<K, V>>, drop: set<nat>)
    requires Distinct(rows)
    ensures Distinct(KeepIndices(rows, drop))
  {
    if rows != [] {
      var n := |rows| - 1;
      KeepDistinct(rows[..n], drop);
      KeepMembers(rows[..n], drop);
      var kept := KeepIndices(rows[..n], drop);
      forall i | 0 <= i < |kept| ensures kept[i].key != rows[n].key {
        var j := KeepSource(rows[..n], drop, kept[i]);
        assert rows[..n][j] == rows[j];
        assert rows[j].key != rows[n].key;
      }
    }
  }

  lemma LaysSplit<K, V>(c: Codec<K, V>, bytes: Bytes, ms: seq<Marker>, rows: seq<Row<K, V>>)
    requires Lays(c, bytes, ms, rows) && ms != []
    ensures var n := |ms| - 1;
      && |rows| == |ms| && Lays(c, bytes, ms[..n], rows[..n]) && Selects(c, bytes, ms[n], rows[n])
      && End(ms[..n]) <= ms[n].start < ms[n].end == End(ms)
  {
    hide Selects;
  }

  lemma LaysPush<K, V>(c: Codec<K, V>, bytes: Bytes, ms: seq<Marker>, rows: seq<Row<K, V>>, m: Marker, r: Row<K, V>)
    requires Lays(c, bytes, ms, rows) && Selects(c, bytes, m, r) && End(ms) <= m.start < m.end
    ensures Lays(c, bytes, ms + [m], rows + [r])
  {
    hide Selects;
    OrderedAppend(ms, m);
  }

  // Dropping markers drops exactly the rows at the same positions.
  lemma {:induction false} KeepLays<K, V>(
    c: Codec<K, V>, bytes: Bytes, ms: seq<Marker>, rows: seq<Row<K, V>>, drop: set<nat>)
    requires Lays(c, bytes, ms, rows)
    ensures Lays(c, bytes, KeepIndices(ms, drop), KeepIndices(rows, drop))
    ensures End(KeepIndices(ms, drop)) <= End(ms)
  {
    hide Lays, Selects;
    SameLength(c, bytes, ms, rows);
    if ms != [] {
      var n := |ms| - 1;
      LaysSplit(c, bytes, ms, rows);
      KeepLays(c, bytes, ms[..n], rows[..n], drop);
      var k, l := KeepIndices(ms[..n], drop), KeepIndices(rows[..n], drop);
      assert k + [] == k && l + [] == l;
      if n !in drop {
        LaysPush(c, bytes, k, l, ms[n], rows[n]);
      }
    }
  }

  lemma SameLength<K, V>(c: Codec<K, V>, bytes: Bytes, ms: seq<Marker>, rows: seq<Row<K, V>>)
    requires Lays(c, bytes, ms, rows)
    ensures |ms| == |rows|
    ensures Lays(c, bytes, [], [])
  {
  }

  // pos + |buf| may lie beyond the old end: the file grows.
  function Overwrite(bytes: Bytes, pos: nat, buf: Bytes): (r: Bytes)
    requires pos <= |bytes|
    ensures |r| == if pos + |buf| < |bytes| then |bytes| else pos + |buf|
    ensures r[..pos] == bytes[..pos] && r[pos..pos + |buf|] == buf
    ensures pos + |buf| < |bytes| ==> r[pos + |buf|..] == bytes[pos + |buf|..]
  {
    bytes[..pos] + buf + (if pos + |buf| < |bytes| then bytes[pos + |buf|..] else [])
  }
}
