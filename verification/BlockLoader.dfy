// block_file_loader: loads chosen rows of one block file, then saves new
// values for them or erases them, on shadow files that a transaction owns.
module BlockLoaders {
  import opened Wrappers
  import opened BlockFormat
  import opened Disks
  import opened Compaction

  // An item, and the marker it was loaded from if it was stored at all.
  datatype Loaded<+V> = Loaded(item: V, index: Option<nat>)

  ghost function Items<K, V>(values: map<K, Loaded<V>>): map<K, V> {
    map k | k in values :: values[k].item
  }

  // values holds the wanted keys: the stored ones as they are stored, with
  // their position, the others empty.
  ghost predicate Snapshot<K, V>(values: map<K, Loaded<V>>, rows: seq<Row<K, V>>, wanted: set<K>, empty: V) {
    && values.Keys == wanted
    && forall k | k in values ::
      match values[k].index
      case Some(i) => i < |rows| && rows[i] == Row(k, values[k].item)
      case None => values[k].item == empty && k !in KeysOf(rows)
  }

  // The positions are right, whatever has become of the items.
  ghost predicate Placed<K, V>(values: map<K, Loaded<V>>, rows: seq<Row<K, V>>) {
    forall k | k in values ::
      match values[k].index
      case Some(i) => i < |rows| && rows[i].key == k
      case None => k !in KeysOf(rows)
  }

  ghost function Positions<K, V>(values: map<K, Loaded<V>>): set<nat> {
    set k | k in values && values[k].index.Some? :: values[k].index.value
  }

  // The rows a save appends: each loaded key once, with its present item.
  ghost predicate Enumerates<K, V>(rows: seq<Row<K, V>>, items: map<K, V>) {
    && Distinct(rows)
    && KeysOf(rows) == items.Keys
    && forall i | 0 <= i < |rows| :: rows[i].key in items && rows[i].value == items[rows[i].key]
  }

  // A list of rows stands for t when it has t's keys with t's values.
  lemma TableIs<K, V>(rows: seq<Row<K, V>>, t: map<K, V>)
    requires Distinct(rows) && KeysOf(rows) == t.Keys
    requires forall r | r in rows :: r.key in t && t[r.key] == r.value
    ensures MapOf(rows) == t
  {
    forall k | k in t ensures MapOf(rows)[k] == t[k] {
      var r :| r in rows && r.key == k;
    }
  }

  lemma RowInTable<K, V>(rows: seq<Row<K, V>>, r: Row<K, V>)
    requires Distinct(rows) && r in rows
    ensures r.key in MapOf(rows) && MapOf(rows)[r.key] == r.value
  {
  }

  // Dropping the positions of the loaded keys is a map subtraction.
  lemma KeptTable<K, V>(rows: seq<Row<K, V>>, values: map<K, Loaded<V>>)
    requires Distinct(rows) && Placed(values, rows)
    ensures var kept := KeepIndices(rows, Positions(values));
      && Distinct(kept)
      && MapOf(kept) == MapOf(rows) - values.Keys
  {
    var drop := Positions(values);
    var kept := KeepIndices(rows, drop);
    KeepDistinct(rows, drop);
    KeptRows(rows, values);
    forall r | r in kept ensures r.key in MapOf(rows) && MapOf(rows)[r.key] == r.value {
      RowInTable(rows, r);
    }
    TableIs(kept, MapOf(rows) - values.Keys);
  }

  lemma KeptRows<K, V>(rows: seq<Row<K, V>>, values: map<K, Loaded<V>>)
    requires Distinct(rows) && Placed(values, rows)
    ensures var kept := KeepIndices(rows, Positions(values));
      && (forall r | r in kept :: r in rows && r.key !in values)
      && KeysOf(kept) == KeysOf(rows) - values.Keys
  {
    var drop := Positions(values);
    var kept := KeepIndices(rows, drop);
    forall r | r in kept ensures r in rows && r.key !in values {
      var i := KeepSource(rows, drop, r);
    }
    forall k | k in KeysOf(rows) - values.Keys ensures k in KeysOf(kept) {
      var r :| r in rows && r.key == k;
      var i :| 0 <= i < |rows| && rows[i] == r;
      NotPositioned(rows, values, i);
      KeepKept(rows, drop, i);
    }
  }

  lemma NotPositioned<K, V>(rows: seq<Row<K, V>>, values: map<K, Loaded<V>>, i: nat)
    requires Placed(values, rows) && i < |rows| && rows[i].key !in values
    ensures i !in Positions(values)
  {
  }

  lemma PositionsBelow<K, V>(rows: seq<Row<K, V>>, values: map<K, Loaded<V>>)
    requires Placed(values, rows)
    ensures forall i | i in Positions(values) :: i < |rows|
  {
  }

  // Appending the new rows and dropping the old positions is a map update.
  lemma SavedTable<K, V>(rows: seq<Row<K, V>>, added: seq<Row<K, V>>, values: map<K, Loaded<V>>)
    requires Distinct(rows) && Placed(values, rows) && Enumerates(added, Items(values))
    ensures var kept := KeepIndices(rows + added, Positions(values));
      Distinct(kept) && MapOf(kept) == MapOf(rows) + Items(values)
  {
    hide Distinct, Placed, Enumerates, KeepIndices, Positions, MapOf;
    var left := KeepIndices(rows, Positions(values));
    var items := Items(values);
    PositionsBelow(rows, values);
    KeepSplit(rows, added, Positions(values));
    KeptTable(rows, values);
    EnumeratedTable(added, items);
    JoinedTable(left, added);
    calc {
      MapOf(left + added);
      MapOf(rows) - values.Keys + items;
      MapOf(rows) + items;
    }
  }

  lemma EnumeratedTable<K, V>(rows: seq<Row<K, V>>, items: map<K, V>)
    requires Enumerates(rows, items)
    ensures Distinct(rows) && KeysOf(rows) == items.Keys && MapOf(rows) == items
  {
    TableIs(rows, items);
  }

  lemma JoinedTable<K, V>(left: seq<Row<K, V>>, added: seq<Row<K, V>>)
    requires Distinct(left) && Distinct(added)
    requires KeysOf(left) !! KeysOf(added)
    ensures Distinct(left + added) && MapOf(left + added) == MapOf(left) + MapOf(added)
  {
    var all := left + added;
    assert Distinct(all) by {
      forall i, j | 0 <= i < |left| <= j < |all| ensures all[i].key != all[j].key {
        assert left[i] in left && added[j - |left|] in added;
        assert left[i].key in KeysOf(left) && added[j - |left|].key in KeysOf(added);
      }
    }
    assert KeysOf(all) == KeysOf(left) + KeysOf(added);
    forall r | r in all ensures (MapOf(left) + MapOf(added))[r.key] == r.value {
      if r in left { RowInTable(left, r); assert r.key in KeysOf(left); } else { RowInTable(added, r); }
    }
    TableIs(all, MapOf(left) + MapOf(added));
  }

  lemma {:induction false} KeepSplit<T>(s: seq<T>, t: seq<T>, drop: set<nat>)
    requires forall i | i in drop :: i < |s|
    ensures KeepIndices(s + t, drop) == KeepIndices(s, drop) + t
  {
    if t == [] {
      assert s + t == s;
    } else {
      var n := |t| - 1;
      KeepSplit(s, t[..n], drop);
      assert (s + t)[..|s + t| - 1] == s + t[..n];
    }
  }

  class BlockLoader<K(==, !new), V(!new)> {
    const disk: Disk
    const path: string
    const codec: Codec<K, V>
    var modified: bool
    var purposeClearAll: bool
    var open: bool
    var values: map<K, Loaded<V>>
    var markers: seq<Marker>

    // open: the caller hands over a transaction that is already under way.
    constructor (disk: Disk, path: string, codec: Codec<K, V>, open: bool)
      ensures this.disk == disk && this.path == path && this.codec == codec && this.open == open
      ensures !modified && !purposeClearAll && values == map[] && markers == []
    {
      this.disk, this.path, this.codec, this.open := disk, path, codec, open;
      modified, purposeClearAll, values, markers := false, false, map[], [];
    }

    ghost function Source(): Image
      reads this, disk
    {
      disk.At(path).Current(open)
    }

    // Loaded from the files as they are now, and not saved since.
    ghost predicate Ready()
      reads this, disk
    {
      && Lossless(codec)
      && Sound(codec, Source())
      && markers == Source().markers
      && (!purposeClearAll ==> Placed(values, Rows(codec, Source())))
    }

    method IndexKeys(keys: seq<K>) returns (byHash: map<nat, set<K>>)
      ensures forall k | k in keys :: codec.hash(k) in byHash && k in byHash[codec.hash(k)]
      ensures forall h | h in byHash :: forall k | k in byHash[h] :: k in keys
    {
      byHash := map[];
      for i := 0 to |keys|
        invariant forall k | k in keys[..i] :: codec.hash(k) in byHash && k in byHash[codec.hash(k)]
        invariant forall h | h in byHash :: forall k | k in byHash[h] :: k in keys
      {
        var h := codec.hash(keys[i]);
        byHash := byHash[h := (if h in byHash then byHash[h] else {}) + {keys[i]}];
      }
    }

    method CheckMarkers(ms: seq<Marker>) returns (ok: bool)
      ensures ok <==> PassesChecks(ms)
    {
      for i := 0 to |ms|
        invariant PassesChecks(ms[..i])
      {
        if ms[i].end <= ms[i].start || (0 < i && ms[i - 1].end > ms[i].start) {
          return false;
        }
      }
      assert ms[..|ms|] == ms;
      return true;
    }

    // The rows that pass the hash filter are read; of these, the rows whose
    // key was asked for are kept. A row that cannot be read is an exception.
    method ReadRows(img: Image, keys: seq<K>) returns (ok: bool, read: map<K, Loaded<V>>)
      ensures Sound(codec, img) ==> ok && ReadBelow(read, Rows(codec, img), keys, |img.markers|)
    {
      hide Together, Sound, Lays, Distinct, ReadBelow, KeysOf;
      var byHash := IndexKeys(keys);
      ok, read := true, map[];
      if Sound(codec, img) { ReadNothing(Rows(codec, img), keys, codec.empty); }
      for i := 0 to |img.markers|
        invariant Sound(codec, img) ==> ReadBelow(read, Rows(codec, img), keys, i)
      {
        var m := img.markers[i];
        if Sound(codec, img) { ReadStep(codec, img, keys, byHash, read, i); }
        if keys == [] || m.key in byHash {
          if !Within(img.bytes, m) {
            return false, read;
          }
          var row := codec.decode(Chunk(img.bytes, m));
          if row == None {
            return false, read;
          }
          if keys == [] || row.value.key in byHash[m.key] {
            read := read[row.value.key := Loaded(row.value.value, Some(i))];
          }
        }
      }
    }

    // Reads one image of the block. The image is checked, then the rows with
    // the given keys are read, or all rows when no key is given. With purposeClear nothing is read if there
    // are as many keys as markers.
    method Load(keys: seq<K>, purposeClear: bool) returns (ok: bool)
      modifies this
      ensures open == old(open) && modified == old(modified)
      ensures !PassesChecks(old(Source()).markers) ==> !ok
      ensures Sound(codec, old(Source())) ==>
        && ok
        && markers == Source().markers
        && purposeClearAll == (purposeClear && keys != [] && |keys| == |Source().markers|)
        && Snapshot(values, if purposeClearAll then [] else Rows(codec, Source()),
                    Wanted(codec, Source(), keys), codec.empty)
    {
      hide Together, Sound, Lays, Distinct, ReadBelow, KeysOf, Snapshot;
      var img := disk.At(path).Current(open);
      if Sound(codec, img) { SoundPasses(codec, img); }
      ok := CheckMarkers(img.markers);
      if !ok {
        return;
      }
      markers := if keys == [] && img.bytes == [] then [] else img.markers;
      purposeClearAll := purposeClear && |keys| == |markers| && keys != [];
      values := map[];
      if img.bytes != [] && !purposeClearAll {
        var read;
        ok, read := ReadRows(img, keys);
        if !ok {
          return;
        }
        values := read;
      } else if Sound(codec, img) {
        ReadNothing(Rows(codec, img), keys, codec.empty);
      }
      ghost var read := values;
      FillMissing(keys);
      if Sound(codec, img) {
        if purposeClearAll { NothingLoaded(codec, img, keys); } else { AllLoaded(codec, img, keys, read); }
      }
    }

    // Keys that are not stored get an empty item.
    method FillMissing(keys: seq<K>)
      modifies `values
      ensures values == Filled(old(values), keys, {}, codec.empty)
    {
      ghost var read := values;
      var missing := set k | k in keys && k !in values;
      while missing != {}
        invariant values == Filled(read, keys, missing, codec.empty)
        modifies `values
      {
        var k :| k in missing;
        values := values[k := Loaded(codec.empty, None)];
        missing := missing - {k};
      }
    }

    // The coalesced chunks move down to close the gaps, in ascending order, so
    // that no byte is overwritten before it has been read.
    method MoveChunks(chunks: seq<Marker>) returns (end: nat)
      requires Ordered(chunks) && disk.At(path).dataTr.Some? && End(chunks) <= |disk.At(path).dataTr.value|
      modifies disk`shadow
      ensures var was := old(disk.At(path));
        && disk.Files() == old(disk.Files())[path := was.(dataTr := disk.At(path).dataTr)]
        && disk.At(path).dataTr.Some?
        && var file := disk.At(path).dataTr.value;
        && |file| == |was.dataTr.value|
        && end == Live(chunks) <= |file|
        && file[..end] == Gather(was.dataTr.value, chunks)
    {
      hide Together, Ordered, Live, Gather;
      ghost var was := disk.At(path);
      ghost var file := was.dataTr.value;
      MovedNone(file);
      end := 0;
      for i := 0 to |chunks|
        invariant disk.Files() == old(disk.Files())[path := was.(dataTr := Some(file))]
          || (i == 0 && disk.Files() == old(disk.Files()) && file == was.dataTr.value)
        invariant Moved(was.dataTr.value, file, chunks[..i]) && end == Live(chunks[..i])
      {
        var item := chunks[i];
        var shift := item.start - end;
        MoveStep(was.dataTr.value, file, chunks, i);
        if shift != 0 {
          var buffer := disk.At(path).dataTr.value[item.start..item.end];
          disk.WriteTr(path, item.start - shift, buffer);
          file := Overwrite(file, end, buffer);
        }
        end := item.end - shift;
      }
      assert chunks[..|chunks|] == chunks;
      MovedAll(was.dataTr.value, file, chunks);
    }

    // Closes the gaps when they take at least as much room as the rows, cuts
    // the shadow file after the last row, and removes it when no row is left.
    method Compact()
      requires Ordered(markers)
      requires markers != [] ==> disk.At(path).dataTr.Some? && End(markers) <= |disk.At(path).dataTr.value|
      modifies `markers, disk`shadow
      ensures disk.Files() == old(disk.Files())[path := old(disk.At(path)).(dataTr := disk.At(path).dataTr)]
      ensures markers == [] <==> old(markers) == []
      ensures markers == [] ==> disk.At(path).dataTr == None
      ensures markers != [] ==>
        && disk.At(path).dataTr.Some?
        && var file := disk.At(path).dataTr.value;
        && SameChunks(old(disk.At(path)).dataTr.value, old(markers), file, markers)
        && Ordered(markers)
        && Tight(file, markers)
      ensures End(old(markers)) < 2 * Live(old(markers)) ==> markers == old(markers)
      ensures End(old(markers)) >= 2 * Live(old(markers)) ==> End(markers) == Live(markers) == Live(old(markers))
    {
      hide Together, Ordered, Live, Gather, SameChunks, Packed;
      ghost var ms := markers;
      if markers == [] {
        disk.PutTr(path, None);
        return;
      }
      var before := disk.At(path).dataTr.value;
      var sizeSum, shiftSum, writtenSize := Measure(markers);
      if shiftSum >= sizeSum && shiftSum != 0 {
        var chunks := Coalesce(markers, before);
        CoalescedSame(before, ms, chunks);
        PackedSame(before, ms);
        PackedLive(ms);
        markers := Pack(markers);
        writtenSize := MoveChunks(chunks);
      }
      var file := disk.At(path).dataTr.value;
      if writtenSize < |before| {
        disk.PutTr(path, Some(file[..writtenSize]));
      }
      CompactResult(before, ms, file, markers, writtenSize, sizeSum);
      assert writtenSize >= |file| ==> file[..writtenSize] == file;
    }

    // Lays out one new row for every loaded key, in no particular order, and
    // collects the bytes to write and the positions that they replace.
    method AppendRows(ghost base: Bytes, ghost rows: seq<Row<K, V>>)
      returns (startPos: nat, bulk: Bytes, drop: set<nat>, ghost added: seq<Row<K, V>>)
      requires Lossless(codec) && Lays(codec, base, markers, rows) && |base| == End(markers)
      requires values != map[]
      modifies `markers, `values
      ensures Lays(codec, base + bulk, markers, rows + added)
      ensures Enumerates(added, Items(old(values)))
      ensures drop == Positions(old(values)) && startPos == |base|
    {
      hide Together, Lays, Enumerates, Positions, Lossless;
      ghost var vs := values;
      var rest := values.Keys;
      var start := None;
      bulk, drop, added := [], {}, [];
      NothingAppended(vs);
      assert base + bulk == base && rows + added == rows;
      while rest != {}
        invariant rest <= vs.Keys && values.Keys == vs.Keys
        invariant forall k | k in rest :: values[k] == vs[k]
        invariant Lays(codec, base + bulk, markers, rows + added) && End(markers) == |base + bulk|
        invariant Enumerates(added, Items(vs - rest)) && drop == Positions(vs - rest)
        invariant if rest == vs.Keys then start == None else start == Some(|base|)
        invariant start == None ==> bulk == []
      {
        var k :| k in rest;
        var row := Row(k, values[k].item);
        var buffer := codec.encode(row);
        var seekPos := End(markers);
        if start == None {
          start := Some(seekPos);
        }
        LaysAppend(codec, base + bulk, markers, rows + added, row);
        Regroup(base, bulk, buffer);
        Regroup(rows, added, [row]);
        AppendStep(vs, rest, k, added);
        markers := markers + [Marker(seekPos, seekPos + |buffer|, codec.hash(k))];
        if values[k].index.Some? {
          drop := drop + {values[k].index.value};
        }
        values := values[k := values[k].(index := Some(|markers| - 1))];
        bulk := bulk + buffer;
        added := added + [row];
        rest := rest - {k};
      }
      assert vs - {} == vs;
      startPos := start.value;
    }

    // Removes the markers at the given positions, moving the others down.
    method DropMarkers(drop: set<nat>)
      modifies `markers
      ensures markers == KeepIndices(old(markers), drop)
    {
      ghost var ms := markers;
      var w := 0;
      for i := 0 to |markers|
        invariant w <= i && |markers| == |ms|
        invariant markers[..w] == KeepIndices(ms[..i], drop)
        invariant forall j | i <= j < |ms| :: markers[j] == ms[j]
      {
        assert ms[..i + 1][..i] == ms[..i];
        if i !in drop {
          markers := markers[w := markers[i]];
          w := w + 1;
          assert markers[..w] == markers[..w - 1] + [ms[i]];
        }
      }
      assert ms[..|ms|] == ms;
      markers := markers[..w];
    }

    method SaveMarkers()
      modifies disk`shadow
      ensures disk.Files() == old(disk.Files())[path :=
        old(disk.At(path)).(marksTr := if markers == [] then None else Some(markers))]
    {
      disk.PutMarksTr(path, if markers == [] then None else Some(markers));
    }

    function Item(k: K): V
      reads this
      requires k in values
    {
      values[k].item
    }

    // Assignment through the non-const operator[].
    method Assign(k: K, v: V)
      requires k in values
      modifies `modified, `values
      ensures modified && values == old(values)[k := old(values)[k].(item := v)]
    {
      modified := true;
      values := values[k := values[k].(item := v)];
    }

    // The end of a save and of an erase: compact, then write the markers.
    method Finish(ghost rows: seq<Row<K, V>>)
      requires Distinct(rows) && |markers| == |rows|
      requires markers != [] ==> disk.At(path).dataTr.Some? && Lays(codec, disk.At(path).dataTr.value, markers, rows)
      modifies `markers, disk`shadow
      ensures disk.Files() == old(disk.Files())[path := disk.At(path)]
      ensures disk.At(path).Stored() == old(disk.At(path)).Stored()
      ensures Neat(disk.At(path)) && Sound(codec, disk.At(path).Shadow())
      ensures Table(codec, disk.At(path).Shadow()) == MapOf(rows)
    {
      hide Together, Sound, Lays, Distinct, SameChunks, Table, MapOf, Ordered, Tight, Neat;
      ghost var ms, file := markers, disk.At(path).dataTr.GetOr([]);
      LaysOrEmpty(codec, file, ms, rows);
      Compact();
      SaveMarkers();
      ghost var f := disk.At(path);
      if markers != [] { SameChunksLays(codec, file, ms, f.dataTr.value, markers, rows); }
      SavedSound(codec, f, markers, rows);
    }

    // The body of save up to the write: the shadow file gets the new rows at
    // the end, and the old positions of the loaded keys lose their markers.
    method WriteRows(ghost rows: seq<Row<K, V>>) returns (ghost added: seq<Row<K, V>>)
      requires Lossless(codec) && Lays(codec, Source().bytes, markers, rows) && Placed(values, rows)
      requires values != map[]
      modifies `markers, `values, disk`shadow
      ensures disk.Files() == old(disk.Files())[path := disk.At(path)]
      ensures disk.At(path).Stored() == old(disk.At(path)).Stored()
      ensures Enumerates(added, Items(old(values)))
      ensures disk.At(path).dataTr.Some?
      ensures Lays(codec, disk.At(path).dataTr.value, markers, KeepIndices(rows + added, Positions(old(values))))
    {
      hide Together, Lays, Placed, Enumerates, Overwrite, Positions, KeepIndices;
      ghost var img := Source();
      BelowEnd(codec, img.bytes, markers, rows);
      ghost var base := img.bytes[..End(markers)];
      if !open && disk.At(path).data.Some? {
        disk.PutTr(path, disk.At(path).data);
      }
      var startPos, bulk, drop;
      startPos, bulk, drop, added := AppendRows(base, rows);
      ghost var all := markers;
      DropMarkers(drop);
      if disk.At(path).dataTr == None {
        disk.PutTr(path, Some([]));
      }
      disk.WriteTr(path, startPos, bulk);
      Written(codec, disk.At(path).dataTr.value, base, bulk, all, rows + added, drop);
    }

    // The stored rows become the stored rows updated with the loaded items.
    method Save()
      requires Ready() && !purposeClearAll && (modified ==> values != map[])
      modifies this, disk`shadow
      ensures disk.At(path).Stored() == old(disk.At(path)).Stored()
      ensures !old(modified) ==> disk.Files() == old(disk.Files()) && open == old(open)
      ensures old(modified) ==>
        && disk.Files() == old(disk.Files())[path := disk.At(path)]
        && open && !modified && Neat(disk.At(path))
        && Sound(codec, disk.At(path).Shadow())
        && Table(codec, disk.At(path).Shadow()) == old(Table(codec, Source())) + Items(old(values))
    {
      hide Together, Sound, Lays, Distinct, Placed, Enumerates, Positions, Table, MapOf, KeepIndices, Neat;
      if !modified {
        return;
      }
      ghost var rows := Rows(codec, Source());
      TableDef(codec, Source());
      ghost var added := WriteRows(rows);
      SavedTable(rows, added, old(values));
      KeptLength(codec, disk.At(path).dataTr.value, markers, KeepIndices(rows + added, Positions(old(values))));
      Finish(KeepIndices(rows + added, Positions(old(values))));
      open, modified := true, false;
    }

    // The stored rows lose the loaded keys, or all rows when the markers were
    // as many as the keys to clear.
    method Erase()
      requires Ready()
      modifies this, disk`shadow
      ensures open && modified == old(modified)
      ensures disk.Files() == old(disk.Files())[path := disk.At(path)]
      ensures disk.At(path).Stored() == old(disk.At(path)).Stored()
      ensures Neat(disk.At(path)) && Sound(codec, disk.At(path).Shadow())
      ensures Table(codec, disk.At(path).Shadow()) ==
        if old(purposeClearAll) then map[] else old(Table(codec, Source())) - old(values).Keys
    {
      hide Together, Sound, Lays, Distinct, Placed, Positions, Table, MapOf, KeepIndices, Neat;
      ghost var img, rows := Source(), Rows(codec, Source());
      TableDef(codec, img);
      var drop := set k | k in values && values[k].index.Some? :: values[k].index.value;
      DropMarkers(drop);
      if purposeClearAll {
        markers := [];
      }
      if !open && disk.At(path).data.Some? && markers != [] {
        disk.PutTr(path, disk.At(path).data);
      }
      ghost var kept := if purposeClearAll then [] else KeepIndices(rows, drop);
      if purposeClearAll { NoRows<K, V>(); } else { ErasedLays(codec, img, rows, values, drop); }
      Finish(kept);
      open := true;
    }

    method Commit()
      modifies this, disk
      ensures !open
      ensures old(open) ==> disk.Files() == old(disk.Files())[path := Committed(old(disk.At(path)))]
      ensures !old(open) ==> disk.Files() == old(disk.Files())
    {
      if open {
        disk.CommitBlock(path);
        open := false;
      }
    }

    method Discard()
      modifies this, disk`shadow
      ensures !open && !modified
      ensures old(open) ==> disk.Files() == old(disk.Files())[path := RolledBack(old(disk.At(path)))]
      ensures !old(open) ==> disk.Files() == old(disk.Files())
    {
      if open {
        disk.RollbackBlock(path);
        open := false;
      }
      modified := false;
    }
  }

  lemma NoRows<K, V>()
    ensures Distinct<K, V>([]) && MapOf<K, V>([]) == map[]
  {
  }

  lemma ErasedLays<K(!new), V(!new)>(
    c: Codec<K, V>, img: Image, rows: seq<Row<K, V>>, values: map<K, Loaded<V>>, drop: set<nat>)
    requires Sound(c, img) && rows == Rows(c, img) && Placed(values, rows)
    requires drop == set k | k in values && values[k].index.Some? :: values[k].index.value
    ensures var kept := KeepIndices(rows, drop); var ms := KeepIndices(img.markers, drop);
      && Distinct(kept) && MapOf(kept) == Table(c, img) - values.Keys
      && |ms| == |kept| && Lays(c, img.bytes, ms, kept)
      && (ms != [] ==> img.bytes != [])
  {
    KeptTable(rows, values);
    KeepLays(c, img.bytes, img.markers, rows, drop);
    EndCovers(c, img.bytes, KeepIndices(img.markers, drop), KeepIndices(rows, drop));
  }

  lemma LaysOrEmpty<K, V>(c: Codec<K, V>, file: Bytes, ms: seq<Marker>, rows: seq<Row<K, V>>)
    requires (ms == [] && rows == []) || Lays(c, file, ms, rows)
    ensures Lays(c, file, ms, rows) && Ordered(ms) && End(ms) <= |file|
  {
    EndCovers(c, file, ms, rows);
  }

  lemma KeptLength<K, V>(c: Codec<K, V>, file: Bytes, ms: seq<Marker>, rows: seq<Row<K, V>>)
    requires Lays(c, file, ms, rows)
    ensures |ms| == |rows|
  {
  }

  lemma BelowEnd<K, V>(c: Codec<K, V>, bytes: Bytes, ms: seq<Marker>, rows: seq<Row<K, V>>)
    requires Lays(c, bytes, ms, rows)
    ensures End(ms) <= |bytes| && Lays(c, bytes[..End(ms)], ms, rows)
  {
    EndCovers(c, bytes, ms, rows);
    LaysBelowEnd(c, bytes, bytes[..End(ms)], ms, rows);
  }

  lemma TableDef<K(!new), V(!new)>(c: Codec<K, V>, img: Image)
    requires Sound(c, img)
    ensures Distinct(Rows(c, img)) && Table(c, img) == MapOf(Rows(c, img))
  {
  }

  // Shadow files without remains: both are there or both are not, and the
  // bytes end with the last row and are more than half in use.
  ghost predicate Neat(f: FileSet) {
    && (f.dataTr.Some? <==> f.marksTr.Some?)
    && (f.marksTr.Some? ==> f.marksTr.value != [] && Tight(f.dataTr.value, f.marksTr.value))
  }

  lemma Written<K, V>(
    c: Codec<K, V>, file: Bytes, base: Bytes, bulk: Bytes, ms: seq<Marker>, rows: seq<Row<K, V>>,
    drop: set<nat>)
    requires Lays(c, base + bulk, ms, rows)
    requires |base + bulk| <= |file| && file[..|base|] == base && file[|base|..|base + bulk|] == bulk
    ensures Lays(c, file, KeepIndices(ms, drop), KeepIndices(rows, drop))
    ensures Ordered(KeepIndices(ms, drop)) && End(KeepIndices(ms, drop)) <= |file|
  {
    assert file[..|base + bulk|] == base + bulk;
    EndCovers(c, base + bulk, ms, rows);
    var e := End(ms);
    assert file[..e] == file[..|base + bulk|][..e];
    LaysBelowEnd(c, base + bulk, file, ms, rows);
    KeepLays(c, file, ms, rows, drop);
    EndCovers(c, file, KeepIndices(ms, drop), KeepIndices(rows, drop));
  }

  // What the shadow files hold at the end of a save or an erase.
  lemma SavedSound<K(!new), V(!new)>(c: Codec<K, V>, f: FileSet, ms: seq<Marker>, rows: seq<Row<K, V>>)
    requires Distinct(rows) && |ms| == |rows|
    requires f.marksTr == if ms == [] then None else Some(ms)
    requires ms == [] ==> f.dataTr == None
    requires ms != [] ==> f.dataTr.Some? && Lays(c, f.dataTr.value, ms, rows) && Tight(f.dataTr.value, ms)
    ensures Neat(f) && Sound(c, f.Shadow()) && Table(c, f.Shadow()) == MapOf(rows)
  {
    LaysSound(c, f.Shadow(), rows);
  }

  lemma NothingAppended<K, V>(vs: map<K, Loaded<V>>)
    ensures Enumerates([], Items(vs - vs.Keys)) && Positions(vs - vs.Keys) == {}
  {
  }

  lemma AppendStep<K, V>(vs: map<K, Loaded<V>>, rest: set<K>, k: K, added: seq<Row<K, V>>)
    requires rest <= vs.Keys && k in rest
    requires Enumerates(added, Items(vs - rest))
    ensures Enumerates(added + [Row(k, vs[k].item)], Items(vs - (rest - {k})))
    ensures Positions(vs - (rest - {k})) ==
      Positions(vs - rest) + (if vs[k].index.Some? then {vs[k].index.value} else {})
  {
    var row := Row(k, vs[k].item);
    var longer := added + [row];
    assert KeysOf(longer) == KeysOf(added) + {k};
    var less, more := vs - rest, vs - (rest - {k});
    assert more == less[k := vs[k]];
    forall p ensures p in Positions(more) <==> p in Positions(less) || vs[k].index == Some(p) {
      if j :| j in more && more[j].index == Some(p) {
        assert j == k || (j in less && less[j].index == Some(p));
      }
      if j :| j in less && less[j].index == Some(p) {
        assert j in more && more[j].index == Some(p);
      }
      if vs[k].index == Some(p) {
        assert k in more && more[k].index == Some(p);
      }
    }
    assert forall i | 0 <= i < |added| :: added[i].key in KeysOf(added) by {
      forall i | 0 <= i < |added| ensures added[i].key in KeysOf(added) { assert added[i] in added; }
    }
  }

  // Nothing after the last row, and fewer dead bytes than live ones.
  ghost predicate Tight(bytes: Bytes, ms: seq<Marker>) {
    |bytes| == End(ms) < 2 * Live(ms)
  }

  lemma CoalescedSame(bytes: Bytes, ms: seq<Marker>, chunks: seq<Marker>)
    requires Coalesced(bytes, ms, chunks)
    ensures Ordered(chunks) && End(chunks) == End(ms)
    ensures Gather(bytes, chunks) == Gather(bytes, ms) && Live(chunks) == Live(ms)
  {
    PackedSame(bytes, ms);
    PackedSame(bytes, chunks);
  }

  lemma CompactResult(file0: Bytes, ms0: seq<Marker>, file: Bytes, ms: seq<Marker>, written: nat, live: nat)
    requires Ordered(ms0) && ms0 != [] && End(ms0) <= |file0| && live == Live(ms0)
    requires |file| == |file0|
    requires
      || (ms == ms0 && file == file0 && written == End(ms0) && (End(ms0) - live < live || End(ms0) == live))
      || (ms == Packed(ms0) && written == live <= |file0| && file[..live] == Gather(file0, ms0))
    ensures ms != [] && Ordered(ms) && SameChunks(file0, ms0, file[..written], ms) && Tight(file[..written], ms)
  {
    PackedSame(file0, ms0);
    LiveBelowEnd(ms0);
    if ms == ms0 {
      SameBelowEnd(file0, ms0);
    } else {
      PackedLive(ms0);
    }
  }

  lemma SameBelowEnd(file: Bytes, ms: seq<Marker>)
    requires Ordered(ms) && End(ms) <= |file|
    ensures SameChunks(file, ms, file[..End(ms)], ms)
  {
    EndIsLast(ms);
    forall i | 0 <= i < |ms|
      ensures Within(file[..End(ms)], ms[i]) && Chunk(file, ms[i]) == Chunk(file[..End(ms)], ms[i])
    {
      SliceOfHead(file, End(ms), ms[i].start, ms[i].end);
    }
  }

  lemma SliceOfHead<T>(s: seq<T>, e: nat, x: nat, y: nat)
    requires x <= y <= e <= |s|
    ensures s[..e][x..y] == s[x..y]
  {
  }

  lemma {:induction false} PackedLive(ms: seq<Marker>)
    requires Ordered(ms)
    ensures Live(Packed(ms)) == Live(ms)
  {
    if ms != [] {
      PackedLive(ms[..|ms| - 1]);
      assert Packed(ms)[..|ms| - 1] == Packed(ms[..|ms| - 1]) by { PackedLength(ms[..|ms| - 1]); }
      PackedLength(ms);
    }
  }

  lemma {:induction false} PackedLength(ms: seq<Marker>)
    ensures |Packed(ms)| == |ms|
  {
    if ms != [] {
      PackedLength(ms[..|ms| - 1]);
    }
  }

  // The chunks so far lie packed at the front, and everything from the end of
  // the last of them on is still as it was.
  ghost predicate Moved(file0: Bytes, file: Bytes, chunks: seq<Marker>) {
    && |file| == |file0|
    && End(chunks) <= |file| && Live(chunks) <= End(chunks)
    && file[..Live(chunks)] == Gather(file0, chunks)
    && file[End(chunks)..] == file0[End(chunks)..]
  }

  lemma MovedNone(file: Bytes)
    ensures Moved(file, file, [])
    ensures Live([]) == 0
  {
  }

  lemma MovedAll(file0: Bytes, file: Bytes, chunks: seq<Marker>)
    requires Moved(file0, file, chunks)
    ensures |file| == |file0| && Live(chunks) <= |file| && file[..Live(chunks)] == Gather(file0, chunks)
  {
  }

  lemma MoveStep(file0: Bytes, file: Bytes, chunks: seq<Marker>, i: nat)
    requires Ordered(chunks) && i < |chunks| && End(chunks) <= |file0|
    requires Moved(file0, file, chunks[..i])
    ensures var c := chunks[i]; var to := Live(chunks[..i]);
      && to <= c.start < c.end <= |file|
      && Live(chunks[..i + 1]) == to + c.end - c.start
      && (to == c.start ==> Moved(file0, file, chunks[..i + 1]))
      && Moved(file0, Overwrite(file, to, file[c.start..c.end]), chunks[..i + 1])
  {
    hide Ordered, Live, Gather, Overwrite;
    var c, to := chunks[i], Live(chunks[..i]);
    Gap(chunks, i);
    assert chunks[..i + 1][..i] == chunks[..i];
    MoveBytes(file0, file, to, End(chunks[..i]), c.start, c.end);
    MoveGather(file0, chunks, i);
  }

  lemma MoveGather(file0: Bytes, chunks: seq<Marker>, i: nat)
    requires i < |chunks| && chunks[i].start <= chunks[i].end <= |file0|
    ensures End(chunks[..i + 1]) == chunks[i].end
    ensures Live(chunks[..i + 1]) == Live(chunks[..i]) + chunks[i].end - chunks[i].start
    ensures Gather(file0, chunks[..i + 1]) == Gather(file0, chunks[..i]) + file0[chunks[i].start..chunks[i].end]
  {
    assert chunks[..i + 1][..i] == chunks[..i];
  }

  lemma MoveBytes(file0: Bytes, file: Bytes, to: nat, e: nat, start: nat, end: nat)
    requires |file| == |file0| && to <= e <= start < end <= |file| && file[e..] == file0[e..]
    ensures var f := Overwrite(file, to, file[start..end]);
      && |f| == |file|
      && f[..to + end - start] == file[..to] + file0[start..end]
      && f[end..] == file0[end..]
      && (to == start ==> f == file)
  {
    hide Overwrite;
    SliceOfTail(file, e, start, end);
    SliceOfTail(file0, e, start, end);
    TailOfTail(file, e, end);
    TailOfTail(file0, e, end);
    OverwriteParts(file, to, file[start..end], end);
    if to == start {
      assert file == file[..start] + file[start..end] + file[end..];
    }
  }

  // What lies before, in and behind the part written.
  lemma OverwriteParts(file: Bytes, to: nat, buf: Bytes, end: nat)
    requires to + |buf| <= end <= |file|
    ensures var f := Overwrite(file, to, buf);
      && |f| == |file| && f[..to + |buf|] == file[..to] + buf && f[end..] == file[end..]
      && f == file[..to] + buf + file[to + |buf|..]
  {
    var p, n := file[..to] + buf, to + |buf|;
    assert file[n..] == [] <==> n == |file|;
    assert p + [] == p;
    assert Overwrite(file, to, buf) == p + file[n..];
    JoinedParts(p, file[n..], end - n);
    TailOfTail(file, n, end);
  }

  lemma JoinedParts<T>(p: seq<T>, q: seq<T>, k: nat)
    requires k <= |q|
    ensures (p + q)[..|p|] == p && (p + q)[|p| + k..] == q[k..]
  {
  }

  lemma TailOfTail<T>(s: seq<T>, e: nat, x: nat)
    requires e <= x <= |s|
    ensures s[e..][x - e..] == s[x..]
  {
  }

  lemma SliceOfTail<T>(s: seq<T>, e: nat, x: nat, y: nat)
    requires e <= x <= y <= |s|
    ensures s[x..y] == s[e..][x - e..y - e]
  {
  }

  // The keys a load is about: the given ones, or all stored ones.
  ghost function Wanted<K(!new), V(!new)>(c: Codec<K, V>, img: Image, keys: seq<K>): set<K>
    requires Sound(c, img)
  {
    if keys == [] then KeysOf(Rows(c, img)) else set k | k in keys
  }

  ghost predicate ReadBelow<K, V>(read: map<K, Loaded<V>>, rows: seq<Row<K, V>>, keys: seq<K>, n: nat) {
    && n <= |rows|
    && (forall k | k in read ::
      && read[k].index.Some? && read[k].index.value < n
      && rows[read[k].index.value] == Row(k, read[k].item)
      && (keys == [] || k in keys))
    && (forall i | 0 <= i < n && (keys == [] || rows[i].key in keys) :: rows[i].key in read)
  }

  ghost function Filled<K, V>(read: map<K, Loaded<V>>, keys: seq<K>, missing: set<K>, empty: V): map<K, Loaded<V>> {
    map k | k in read.Keys + (set k | k in keys) && k !in missing :: if k in read then read[k] else Loaded(empty, None)
  }

  lemma SoundPasses<K(!new), V(!new)>(c: Codec<K, V>, img: Image)
    requires Sound(c, img)
    ensures PassesChecks(img.markers) && End(img.markers) <= |img.bytes|
    ensures |Rows(c, img)| == |img.markers|
    ensures img.bytes == [] ==> img.markers == []
  {
    ChecksMeanOrdered(img.markers);
    EndCovers(c, img.bytes, img.markers, Rows(c, img));
  }

  lemma ReadNothing<K, V>(rows: seq<Row<K, V>>, keys: seq<K>, empty: V)
    ensures ReadBelow(map[], rows, keys, 0)
  {
  }

  lemma ReadStep<K(!new), V(!new)>(
    c: Codec<K, V>, img: Image, keys: seq<K>, byHash: map<nat, set<K>>, read: map<K, Loaded<V>>, i: nat)
    requires Sound(c, img) && i < |img.markers|
    requires ReadBelow(read, Rows(c, img), keys, i)
    requires forall k | k in keys :: c.hash(k) in byHash && k in byHash[c.hash(k)]
    requires forall h | h in byHash :: forall k | k in byHash[h] :: k in keys
    ensures var m := img.markers[i]; var row := Rows(c, img)[i];
      && Within(img.bytes, m) && c.decode(Chunk(img.bytes, m)) == Some(row)
      && ((keys == [] || (m.key in byHash && row.key in byHash[m.key])) ==>
        ReadBelow(read[row.key := Loaded(row.value, Some(i))], Rows(c, img), keys, i + 1))
      && (!(keys == [] || (m.key in byHash && row.key in byHash[m.key])) ==>
        ReadBelow(read, Rows(c, img), keys, i + 1))
  {
    hide Sound, Rows, Selects, Distinct;
    var rows := Rows(c, img);
    RowAt(c, img, i);
    forall k | k in read ensures k != rows[i].key {
      assert rows[read[k].index.value].key == k;
    }
  }

  lemma RowAt<K(!new), V(!new)>(c: Codec<K, V>, img: Image, i: nat)
    requires Sound(c, img) && i < |img.markers|
    ensures var m, rows := img.markers[i], Rows(c, img);
      && |rows| == |img.markers| && Within(img.bytes, m) && c.decode(Chunk(img.bytes, m)) == Some(rows[i])
      && m.key == c.hash(rows[i].key)
      && forall j | 0 <= j < i :: rows[j].key != rows[i].key
  {
    assert Selects(c, img.bytes, img.markers[i], Rows(c, img)[i]);
  }

  lemma NothingLoaded<K(!new), V(!new)>(c: Codec<K, V>, img: Image, keys: seq<K>)
    requires Sound(c, img) && keys != []
    ensures Snapshot(Filled(map[], keys, {}, c.empty), [], Wanted(c, img, keys), c.empty)
  {
  }

  lemma AllLoaded<K(!new), V(!new)>(c: Codec<K, V>, img: Image, keys: seq<K>, read: map<K, Loaded<V>>)
    requires Sound(c, img)
    requires ReadBelow(read, Rows(c, img), keys, |img.markers|)
    ensures Snapshot(Filled(read, keys, {}, c.empty), Rows(c, img), Wanted(c, img, keys), c.empty)
  {
    var rows := Rows(c, img);
    var values := Filled(read, keys, {}, c.empty);
    forall k | k in KeysOf(rows) && (keys == [] || k in keys) ensures k in read {
      var r :| r in rows && r.key == k;
      var i :| 0 <= i < |rows| && rows[i] == r;
    }
    assert forall k | k in read :: k in KeysOf(rows) by {
      forall k | k in read ensures k in KeysOf(rows) {
        assert rows[read[k].index.value] in rows;
      }
    }
    assert values.Keys == Wanted(c, img, keys);
  }
}
