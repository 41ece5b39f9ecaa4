// Closing the gaps of a block file: which bytes the markers select, how many
// of them there are, and the two steps of block_file_loader::compact that
// compute on markers. The step that moves bytes is BlockLoader.MoveChunks.
module Compaction {
  import opened BlockFormat

  const CHUNK_LIMIT: nat := 10 * 1024 * 1024

  function Length(m: Marker): nat {
    if m.start <= m.end then m.end - m.start else 0
  }

  // The number of bytes that some marker selects.
  function Live(ms: seq<Marker>): nat {
    if ms == [] then 0 else Live(ms[..|ms| - 1]) + Length(ms[|ms| - 1])
  }

  // The selected bytes, one chunk after the other.
  ghost function Gather(bytes: Bytes, ms: seq<Marker>): Bytes {
    if ms == [] then [] else Gather(bytes, ms[..|ms| - 1]) + Chunk(bytes, ms[|ms| - 1])
  }

  // The markers after every gap has been closed.
  function Packed(ms: seq<Marker>): seq<Marker> {
    if ms == [] then []
    else
      var n := |ms| - 1;
      Packed(ms[..n]) + [Marker(Live(ms[..n]), Live(ms), ms[n].key)]
  }

  // Marker by marker the same key and the same bytes.
  ghost predicate SameChunks(bytes: Bytes, ms: seq<Marker>, bytes': Bytes, ms': seq<Marker>) {
    && |ms| == |ms'|
    && (forall i | 0 <= i < |ms| :: Within(bytes, ms[i]) && Within(bytes', ms'[i]))
    && (forall i | 0 <= i < |ms| :: ms[i].key == ms'[i].key && Chunk(bytes, ms[i]) == Chunk(bytes', ms'[i]))
  }

  lemma SameChunksLays<K, V>(
    c: Codec<K, V>, bytes: Bytes, ms: seq<Marker>, bytes': Bytes, ms': seq<Marker>, rows: seq<Row<K, V>>)
    requires Lays(c, bytes, ms, rows) && SameChunks(bytes, ms, bytes', ms') && Ordered(ms')
    ensures Lays(c, bytes', ms', rows)
  {
    forall i | 0 <= i < |ms| ensures Selects(c, bytes', ms'[i], rows[i]) {
      assert Selects(c, bytes, ms[i], rows[i]);
    }
  }

  lemma {:induction false} LiveBelowEnd(ms: seq<Marker>)
    requires Ordered(ms)
    ensures Live(ms) <= End(ms)
    ensures ms != [] ==> 0 < Live(ms) && Live(ms[..|ms| - 1]) <= ms[|ms| - 1].start
  {
    if |ms| > 0 {
      LiveBelowEnd(ms[..|ms| - 1]);
    }
  }

  lemma SameChunksAppend(bytes: Bytes, ms: seq<Marker>, g: Bytes, p: seq<Marker>, m: Marker)
    requires SameChunks(bytes, ms, g, p) && Within(bytes, m)
    ensures var q := Marker(|g|, |g| + m.end - m.start, m.key);
      SameChunks(bytes, ms + [m], g + Chunk(bytes, m), p + [q])
  {
    var q := Marker(|g|, |g| + m.end - m.start, m.key);
    var g' := g + Chunk(bytes, m);
    forall i | 0 <= i < |ms|
      ensures Within(g', p[i]) && Chunk(g', p[i]) == Chunk(g, p[i])
    {
      assert Within(bytes, ms[i]) && Within(g, p[i]);
    }
    assert Chunk(g', q) == Chunk(bytes, m);
  }

  lemma {:induction false} PackedSame(bytes: Bytes, ms: seq<Marker>)
    requires Ordered(ms) && End(ms) <= |bytes|
    ensures Ordered(Packed(ms)) && End(Packed(ms)) == Live(ms) == |Gather(bytes, ms)|
    ensures SameChunks(bytes, ms, Gather(bytes, ms), Packed(ms))
  {
    hide Ordered, SameChunks, Packed, Gather, Live, Chunk;
    OrderedSplit(bytes, ms);
    if ms != [] {
      var n := |ms| - 1;
      PackedLast(bytes, ms);
      PackedSame(bytes, ms[..n]);
      SameChunksAppend(bytes, ms[..n], Gather(bytes, ms[..n]), Packed(ms[..n]), ms[n]);
      OrderedAppend(Packed(ms[..n]), Marker(Live(ms[..n]), Live(ms), ms[n].key));
      assert ms[..n] + [ms[n]] == ms;
    }
  }

  lemma PackedLast(bytes: Bytes, ms: seq<Marker>)
    requires ms != [] && Within(bytes, ms[|ms| - 1])
    ensures var n := |ms| - 1;
      && Packed(ms) == Packed(ms[..n]) + [Marker(Live(ms[..n]), Live(ms), ms[n].key)]
      && Gather(bytes, ms) == Gather(bytes, ms[..n]) + Chunk(bytes, ms[n])
      && |Chunk(bytes, ms[n])| == ms[n].end - ms[n].start
      && Live(ms) == Live(ms[..n]) + ms[n].end - ms[n].start
  {
  }

  lemma OrderedSplit(bytes: Bytes, ms: seq<Marker>)
    requires Ordered(ms)
    ensures Ordered([]) && SameChunks(bytes, [], [], [])
    ensures Packed([]) == [] && Gather(bytes, []) == [] && Live([]) == 0
    ensures ms != [] ==>
      var n := |ms| - 1;
      Ordered(ms[..n]) && End(ms[..n]) <= ms[n].start < ms[n].end == End(ms)
  {
    EndIsLast(ms);
  }

  // The first loop of compact: how much is selected, and how many bytes below
  // the last marker are not.
  method Measure(ms: seq<Marker>) returns (sizeSum: nat, shiftSum: nat, writtenSize: nat)
    requires Ordered(ms)
    ensures sizeSum == Live(ms) && writtenSize == End(ms) && sizeSum + shiftSum == End(ms)
  {
    sizeSum, shiftSum := 0, 0;
    var start := 0;
    for i := 0 to |ms|
      invariant start == sizeSum == Live(ms[..i])
      invariant sizeSum + shiftSum == End(ms[..i])
    {
      assert ms[..i + 1][..i] == ms[..i];
      LiveBelowEnd(ms[..i + 1]);
      sizeSum := sizeSum + (ms[i].end - ms[i].start);
      shiftSum := ms[i].start - start;
      start := ms[i].end - shiftSum;
    }
    assert ms[..|ms|] == ms;
    writtenSize := start + shiftSum;
  }

  // Neighbouring markers are joined into chunks, so that one read and one
  // write move them together; a chunk stops growing before CHUNK_LIMIT.
  method Coalesce(ms: seq<Marker>, ghost bytes: Bytes) returns (chunks: seq<Marker>)
    requires Ordered(ms) && End(ms) <= |bytes|
    ensures Coalesced(bytes, ms, chunks)
  {
    hide Coalesced, Ordered;
    chunks := ms;
    var w := 0;
    ghost var made: seq<Marker> := [];
    CoalesceNone(bytes);
    for i := 0 to |ms|
      invariant |made| == w <= i && |chunks| == |ms|
      invariant forall j | i <= j < |ms| :: chunks[j] == ms[j]
      invariant forall j | 0 <= j < w :: chunks[j] == made[j]
      invariant Coalesced(bytes, ms[..i], made) && End(made) == End(ms[..i])
    {
      var read := chunks[i];
      Gap(ms, i);
      assert ms[..i + 1] == ms[..i] + [read];
      if w > 0 && chunks[w - 1].end == read.start && read.end - chunks[w - 1].start < CHUNK_LIMIT {
        CoalesceGrow(bytes, ms[..i], made, read);
        chunks := chunks[w - 1 := chunks[w - 1].(end := read.end)];
        made := made[..w - 1] + [made[w - 1].(end := read.end)];
      } else {
        CoalesceNew(bytes, ms[..i], made, read);
        chunks := chunks[w := read];
        w := w + 1;
        made := made + [read];
      }
    }
    assert ms[..|ms|] == ms;
    chunks := chunks[..w];
    assert chunks == made;
  }

  lemma Gap(ms: seq<Marker>, i: nat)
    requires Ordered(ms) && i < |ms|
    ensures End(ms[..i]) <= ms[i].start < ms[i].end <= End(ms)
  {
    EndIsLast(ms);
  }

  // The chunks cover the same bytes as the markers they were made from.
  ghost predicate Coalesced(bytes: Bytes, ms: seq<Marker>, chunks: seq<Marker>) {
    && Ordered(ms) && Ordered(chunks)
    && End(chunks) == End(ms) <= |bytes|
    && Gather(bytes, chunks) == Gather(bytes, ms)
    && forall c | c in chunks && CHUNK_LIMIT <= c.end - c.start :: c in ms
  }

  lemma CoalesceNone(bytes: Bytes)
    ensures Coalesced(bytes, [], [])
  {
  }

  lemma CoalesceNew(bytes: Bytes, ms: seq<Marker>, chunks: seq<Marker>, m: Marker)
    requires Coalesced(bytes, ms, chunks)
    requires End(ms) <= m.start < m.end <= |bytes|
    ensures Coalesced(bytes, ms + [m], chunks + [m])
  {
    OrderedAppend(ms, m);
    OrderedAppend(chunks, m);
    assert (ms + [m])[..|ms|] == ms && (chunks + [m])[..|chunks|] == chunks;
  }

  lemma CoalesceGrow(bytes: Bytes, ms: seq<Marker>, chunks: seq<Marker>, m: Marker)
    requires Coalesced(bytes, ms, chunks) && chunks != []
    requires End(ms) == m.start < m.end <= |bytes|
    requires m.end - chunks[|chunks| - 1].start < CHUNK_LIMIT
    ensures Coalesced(bytes, ms + [m], chunks[..|chunks| - 1] + [chunks[|chunks| - 1].(end := m.end)])
  {
    hide Ordered, Gather, Chunk;
    OrderedAppend(ms, m);
    GatherPush(bytes, ms, m);
    GrowLast(bytes, chunks, m.end);
    GrowLimit(ms, chunks, m);
  }

  lemma GatherPush(bytes: Bytes, ms: seq<Marker>, m: Marker)
    requires Within(bytes, m)
    ensures Gather(bytes, ms + [m]) == Gather(bytes, ms) + bytes[m.start..m.end]
  {
    assert (ms + [m])[..|ms|] == ms;
  }

  // Only chunks that are markers of their own reach the limit.
  lemma GrowLimit(ms: seq<Marker>, chunks: seq<Marker>, m: Marker)
    requires forall c | c in chunks && CHUNK_LIMIT <= c.end - c.start :: c in ms
    requires chunks != [] && m.end - chunks[|chunks| - 1].start < CHUNK_LIMIT
    ensures var grown := chunks[..|chunks| - 1] + [chunks[|chunks| - 1].(end := m.end)];
      forall c | c in grown && CHUNK_LIMIT <= c.end - c.start :: c in ms + [m]
  {
    var n := |chunks| - 1;
    forall c | c in chunks[..n] && CHUNK_LIMIT <= c.end - c.start ensures c in ms {
      assert c in chunks;
    }
  }

  lemma GrowLast(bytes: Bytes, ms: seq<Marker>, end: nat)
    requires Ordered(ms) && ms != [] && End(ms) <= end <= |bytes|
    ensures var g := ms[..|ms| - 1] + [ms[|ms| - 1].(end := end)];
      Ordered(g) && Gather(bytes, g) == Gather(bytes, ms) + bytes[End(ms)..end]
  {
    hide Ordered, Gather, Chunk;
    var n := |ms| - 1;
    var m := ms[n].(end := end);
    OrderedSplit(bytes, ms);
    OrderedAppend(ms[..n], m);
    PackedLast(bytes, ms);
    PackedLast(bytes, ms[..n] + [m]);
    assert (ms[..n] + [m])[..n] == ms[..n];
    GrowChunk(bytes, ms[n], end);
    Regroup(Gather(bytes, ms[..n]), Chunk(bytes, ms[n]), bytes[ms[n].end..end]);
  }

  lemma GrowChunk(bytes: Bytes, m: Marker, end: nat)
    requires m.start <= m.end <= end <= |bytes|
    ensures Chunk(bytes, m.(end := end)) == Chunk(bytes, m) + bytes[m.end..end]
  {
  }

  lemma Regroup<T>(a: seq<T>, b: seq<T>, c: seq<T>)
    ensures a + b + c == a + (b + c)
  {
  }

  // Every marker moves down by the gap in front of it.
  method Pack(ms: seq<Marker>) returns (packed: seq<Marker>)
    requires Ordered(ms)
    ensures packed == Packed(ms)
  {
    packed := ms;
    var start := 0;
    for i := 0 to |ms|
      invariant |packed| == |ms| && packed[i..] == ms[i..]
      invariant start == Live(ms[..i]) && packed[..i] == Packed(ms[..i])
    {
      assert ms[..i + 1][..i] == ms[..i];
      LiveBelowEnd(ms[..i + 1]);
      var m := packed[i];
      assert m == ms[i];
      var shift := m.start - start;
      packed := packed[i := m.(start := m.start - shift, end := m.end - shift)];
      start := packed[i].end;
    }
    assert ms[..|ms|] == ms && packed[..|ms|] == packed;
  }
}
