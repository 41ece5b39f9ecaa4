// file_saver_helper: brings the edits of a container into its block files,
// one file after the other; and the commit and rollback of many files.
module FileSavers {
  import opened Wrappers
  import opened BlockFormat
  import opened Disks
  import opened BlockLoaders

  // The image is well formed and stands for t.
  ghost predicate Reads<K(!new), V(!new)>(c: Codec<K, V>, img: Image, t: map<K, V>) {
    Sound(c, img) && Table(c, img) == t
  }

  ghost predicate NoDuplicates<K>(keys: seq<K>) {
    forall i, j | 0 <= i < j < |keys| :: keys[i] != keys[j]
  }

  ghost function SetOf<K>(keys: seq<K>): set<K> {
    set k | k in keys
  }

  // The table of one block after its keys have been erased or set.
  ghost function Edited<K, V>(t: map<K, V>, keys: set<K>, erase: bool, items: map<K, V>): map<K, V> {
    if erase then t - keys else t + (map k | k in keys && k in items :: items[k])
  }

  // A row of overlay transactions; a missing one is a null pointer.
  predicate IsOpen(opens: map<string, bool>, f: string) {
    f in opens && opens[f]
  }

  ghost function Seen(files: map<string, FileSet>, opens: map<string, bool>, f: string): Image {
    FilesAt(files, f).Current(IsOpen(opens, f))
  }

  lemma {:induction false} SizeOfSet<K>(keys: seq<K>)
    ensures |SetOf(keys)| <= |keys|
    ensures |SetOf(keys)| == |keys| <==> NoDuplicates(keys)
  {
    if keys != [] {
      var n := |keys| - 1;
      SizeOfSet(keys[..n]);
      assert keys == keys[..n] + [keys[n]];
      assert SetOf(keys) == SetOf(keys[..n]) + {keys[n]};
      if keys[n] in keys[..n] {
        var i :| 0 <= i < n && keys[..n][i] == keys[n];
        assert SetOf(keys) == SetOf(keys[..n]) && keys[i] == keys[n];
      } else {
        assert forall i | 0 <= i < n :: keys[i] == keys[..n][i];
      }
    }
  }

  lemma {:induction false} SizeOfKeys<K, V>(rows: seq<Row<K, V>>)
    requires Distinct(rows)
    ensures |KeysOf(rows)| == |rows|
  {
    if rows != [] {
      var n := |rows| - 1;
      SizeOfKeys(rows[..n]);
      assert KeysOf(rows) == KeysOf(rows[..n]) + {rows[n].key};
    }
  }

  // When there are as many keys as rows, clearing every marker is the same as
  // erasing key by key exactly if the keys are different and all stored.
  lemma ClearAllByCounting<K, V>(t: map<K, V>, keys: seq<K>)
    requires |keys| == |t|
    ensures t - SetOf(keys) == map[] <==> NoDuplicates(keys) && forall k | k in keys :: k in t
  {
    hide NoDuplicates;
    SizeOfSet(keys);
    assert |t| == |t.Keys|;
    if NoDuplicates(keys) && forall k | k in keys :: k in t {
      SubsetOfSameSize(SetOf(keys), t.Keys);
    }
    if t - SetOf(keys) == map[] {
      assert t.Keys <= SetOf(keys) by {
        forall k | k in t ensures k in keys {
          assert k !in t - SetOf(keys);
        }
      }
      Smaller(t.Keys, SetOf(keys));
      SubsetOfSameSize(t.Keys, SetOf(keys));
      assert forall k | k in keys :: k in SetOf(keys);
    }
  }

  // What erase leaves of a table, for any keys.
  ghost function ErasedFrom<K, V>(t: map<K, V>, keys: seq<K>): map<K, V> {
    if |keys| == |t| then map[] else t - SetOf(keys)
  }

  lemma ErasedAll<K, V>(t: map<K, V>, keys: seq<K>)
    requires NoDuplicates(keys) && forall k | k in keys :: k in t
    ensures ErasedFrom(t, keys) == t - SetOf(keys)
  {
    if |keys| == |t| {
      ClearAllByCounting(t, keys);
    }
  }

  // There are as many rows as markers.
  lemma TableSize<K(!new), V(!new)>(c: Codec<K, V>, img: Image)
    requires Sound(c, img)
    ensures |Table(c, img)| == |img.markers|
  {
    hide Sound, Rows;
    TableRows(c, img);
    SizeOfKeys(Rows(c, img));
    assert |Table(c, img)| == |Table(c, img).Keys|;
  }

  lemma TableRows<K(!new), V(!new)>(c: Codec<K, V>, img: Image)
    requires Sound(c, img)
    ensures Distinct(Rows(c, img)) && |Rows(c, img)| == |img.markers| && Table(c, img).Keys == KeysOf(Rows(c, img))
  {
  }

  lemma Smaller<T>(a: set<T>, b: set<T>)
    requires a <= b
    ensures |a| <= |b|
  {
    assert b == a + (b - a);
  }

  lemma SubsetOfSameSize<T>(a: set<T>, b: set<T>)
    requires a <= b && |a| == |b|
    ensures a == b
  {
    if x :| x in b && x !in a {
      assert |b - a| >= 1 by { assert x in b - a; }
    }
  }

  // For example, a repeated key is counted twice and the shortcut clears more
  // than it was asked to.
  lemma RepeatedKeyClearsTooMuch<K, V>(t: map<K, V>, a: K, b: K)
    requires a != b && t.Keys == {a, b}
    ensures b in t - SetOf([a, a]) && ErasedFrom(t, [a, a]) == map[]
  {
    assert |t| == |t.Keys|;
  }

  lemma SnapshotPlaced<K, V>(values: map<K, Loaded<V>>, rows: seq<Row<K, V>>, wanted: set<K>, empty: V)
    requires Snapshot(values, rows, wanted, empty)
    ensures Placed(values, rows) && values.Keys == wanted
  {
    forall k | k in values && values[k].index.Some? ensures k in KeysOf(rows) {
      assert rows[values[k].index.value] in rows;
    }
  }

  // Loading chosen keys, through the hash filter, gives what is stored for
  // them and an empty item for the others.
  lemma LoadedIsTable<K(!new), V(!new)>(c: Codec<K, V>, img: Image, values: map<K, Loaded<V>>, keys: seq<K>)
    requires Sound(c, img) && Snapshot(values, Rows(c, img), Wanted(c, img, keys), c.empty)
    ensures values.Keys == if keys == [] then Table(c, img).Keys else SetOf(keys)
    ensures forall k | k in values ::
      if k in Table(c, img) then values[k].index.Some? && values[k].item == Table(c, img)[k]
      else values[k] == Loaded(c.empty, None)
  {
    var rows := Rows(c, img);
    forall k | k in values && values[k].index.Some?
      ensures k in Table(c, img) && values[k].item == Table(c, img)[k]
    {
      RowInTable(rows, rows[values[k].index.value]);
    }
  }

  // Loading without keys loads the whole table.
  lemma LoadedAll<K(!new), V(!new)>(c: Codec<K, V>, img: Image, values: map<K, Loaded<V>>)
    requires Sound(c, img) && Snapshot(values, Rows(c, img), Wanted(c, img, []), c.empty)
    ensures forall k | k in values :: values[k].index.Some?
    ensures Items(values) == Table(c, img)
  {
    LoadedIsTable(c, img, values, []);
  }

  // Loading chosen keys is loading everything and looking the keys up.
  lemma ChosenFromAll<K(!new), V(!new)>(
    c: Codec<K, V>, img: Image, all: map<K, Loaded<V>>, chosen: map<K, Loaded<V>>, keys: seq<K>)
    requires Sound(c, img) && keys != []
    requires Snapshot(all, Rows(c, img), Wanted(c, img, []), c.empty)
    requires Snapshot(chosen, Rows(c, img), Wanted(c, img, keys), c.empty)
    ensures chosen == map k | k in SetOf(keys) :: if k in all then all[k] else Loaded(c.empty, None)
  {
    LoadedIsTable(c, img, all, []);
    LoadedIsTable(c, img, chosen, keys);
    var rows := Rows(c, img);
    forall k | k in chosen && k in all ensures chosen[k] == all[k] {
      assert rows[chosen[k].index.value].key == rows[all[k].index.value].key;
    }
  }

  // The load function of a container: one stored item.
  method ReadItem<K(==, !new), V(!new)>(
    disk: Disk, path: string, codec: Codec<K, V>, open: bool, key: K)
    returns (item: V)
    requires Sound(codec, disk.At(path).Current(open)) && key in Table(codec, disk.At(path).Current(open))
    ensures item == Table(codec, disk.At(path).Current(open))[key]
  {
    hide Together, Sound, Snapshot, Table;
    var temp: BlockLoader<K, V> := new BlockLoader(disk, path, codec, open);
    var ok := temp.Load([key], false);
    assert ok;
    LoadedIsTable(codec, disk.At(path).Current(open), temp.values, [key]);
    assert key in SetOf([key]);
    item := temp.Item(key);
  }

  // load_index and load_size: everything a committed block holds.
  method ReadWhole<K(==, !new), V(!new)>(disk: Disk, path: string, codec: Codec<K, V>) returns (t: map<K, V>)
    requires Sound(codec, disk.At(path).Stored())
    ensures t == Table(codec, disk.At(path).Stored())
  {
    hide Together, Sound, Snapshot, Table;
    var temp: BlockLoader<K, V> := new BlockLoader(disk, path, codec, false);
    var ok := temp.Load([], false);
    assert ok;
    LoadedAll(codec, disk.At(path).Stored(), temp.values);
    t := Collect(temp.values);
  }

  method Collect<K(==), V>(values: map<K, Loaded<V>>) returns (t: map<K, V>)
    requires forall k | k in values :: values[k].index.Some?
    ensures t == Items(values)
  {
    t := map[];
    var todo := set k | k in values && values[k].index.Some?;
    while todo != {}
      invariant todo <= values.Keys && t.Keys == values.Keys - todo
      invariant forall k | k in t :: t[k] == values[k].item
    {
      var k :| k in todo;
      t := t[k := values[k].item];
      todo := todo - {k};
    }
  }

  method EraseBlock<K(==, !new), V(!new)>(
    disk: Disk, path: string, codec: Codec<K, V>, open: bool, keys: seq<K>, ghost t: map<K, V>)
    returns (open': bool)
    requires Lossless(codec) && Reads(codec, disk.At(path).Current(open), t)
    requires keys != []
    modifies disk`shadow
    ensures disk.Files() == old(disk.Files())[path := disk.At(path)]
    ensures disk.At(path).Stored() == old(disk.At(path)).Stored()
    ensures open' && Neat(disk.At(path))
    ensures Reads(codec, disk.At(path).Current(open'), ErasedFrom(t, keys))
  {
    hide Together, Sound, Table, Snapshot, Placed, Neat, Lossless;
    var temp: BlockLoader<K, V> := new BlockLoader(disk, path, codec, open);
    ghost var img := disk.At(path).Current(open);
    var ok := temp.Load(keys, true);
    assert ok;
    TableSize(codec, img);
    if !temp.purposeClearAll {
      SnapshotPlaced(temp.values, Rows(codec, img), SetOf(keys), codec.empty);
    }
    temp.Erase();
    open' := temp.open;
  }

  method UpdateBlock<K(==, !new), V(!new)>(
    disk: Disk, path: string, codec: Codec<K, V>, open: bool, keys: seq<K>, items: map<K, V>,
    ghost t: map<K, V>)
    returns (open': bool)
    requires Lossless(codec) && Reads(codec, disk.At(path).Current(open), t)
    requires keys != [] && forall k | k in keys :: k in items
    modifies disk`shadow
    ensures disk.Files() == old(disk.Files())[path := disk.At(path)]
    ensures disk.At(path).Stored() == old(disk.At(path)).Stored()
    ensures open' && Neat(disk.At(path))
    ensures Reads(codec, disk.At(path).Current(open'), Edited(t, SetOf(keys), false, items))
  {
    hide Together, Sound, Table, Snapshot, Placed, Neat, Lossless;
    var temp: BlockLoader<K, V> := new BlockLoader(disk, path, codec, open);
    ghost var img := disk.At(path).Current(open);
    var ok := temp.Load(keys, false);
    assert ok;
    ghost var loaded := temp.values;
    SnapshotPlaced(loaded, Rows(codec, img), SetOf(keys), codec.empty);
    AssignItems(temp, keys, items);
    AllAssigned(loaded, Rows(codec, img), keys, items);
    temp.Save();
    open' := temp.open;
  }

  method AssignItems<K(==, !new), V(!new)>(temp: BlockLoader<K, V>, keys: seq<K>, items: map<K, V>)
    requires forall k | k in keys :: k in items && k in temp.values
    modifies temp`values, temp`modified
    ensures temp.values == Assigned(old(temp.values), keys, items)
    ensures temp.modified == (old(temp.modified) || keys != [])
  {
    ghost var loaded := temp.values;
    for i := 0 to |keys|
      invariant temp.values == Assigned(loaded, keys[..i], items)
      invariant temp.modified == (old(temp.modified) || i > 0)
    {
      AssignStep(loaded, keys, items, i);
      temp.Assign(keys[i], items[keys[i]]);
    }
    assert keys[..|keys|] == keys;
  }

  ghost function Assigned<K, V>(loaded: map<K, Loaded<V>>, keys: seq<K>, items: map<K, V>): map<K, Loaded<V>> {
    map k | k in loaded :: if k in keys && k in items then loaded[k].(item := items[k]) else loaded[k]
  }

  lemma AssignStep<K, V>(loaded: map<K, Loaded<V>>, keys: seq<K>, items: map<K, V>, i: nat)
    requires i < |keys| && keys[i] in loaded && keys[i] in items
    ensures var before := Assigned(loaded, keys[..i], items); var k := keys[i];
      k in before && Assigned(loaded, keys[..i + 1], items) == before[k := before[k].(item := items[k])]
  {
    assert keys[..i + 1] == keys[..i] + [keys[i]];
  }

  lemma AllAssigned<K, V>(loaded: map<K, Loaded<V>>, rows: seq<Row<K, V>>, keys: seq<K>, items: map<K, V>)
    requires loaded.Keys == SetOf(keys) && Placed(loaded, rows) && keys != []
    requires forall k | k in keys :: k in items
    ensures var values := Assigned(loaded, keys, items);
      && values != map[] && Placed(values, rows)
      && Items(values) == map k | k in SetOf(keys) && k in items :: items[k]
  {
    assert keys[0] in Assigned(loaded, keys, items);
  }

  // Every file that is edited shows the edited table, the others what they
  // showed before. todo are the files whose turn has not come.
  ghost predicate EditedExcept<K(!new), V(!new)>(
    c: Codec<K, V>, files: map<string, FileSet>, opens: map<string, bool>, byFile: map<string, seq<K>>,
    tables: map<string, map<K, V>>, todo: set<string>, erase: bool, items: map<K, V>)
    requires tables.Keys == byFile.Keys
  {
    forall f | f in byFile ::
      Reads(c, Seen(files, opens, f),
            if f in todo then tables[f] else Edited(tables[f], SetOf(byFile[f]), erase, items))
  }

  // Files outside byFile are as they were, and no stored file has changed.
  ghost predicate Contained<K>(
    files0: map<string, FileSet>, files: map<string, FileSet>, opens0: map<string, bool>,
    opens: map<string, bool>, byFile: map<string, seq<K>>) {
    && opens.Keys == opens0.Keys
    && (forall f :: FilesAt(files, f).Stored() == FilesAt(files0, f).Stored())
    && (forall f | f !in byFile :: FilesAt(files, f) == FilesAt(files0, f) && IsOpen(opens, f) == IsOpen(opens0, f))
  }

  ghost predicate SaverInput<K(!new), V(!new)>(
    c: Codec<K, V>, files: map<string, FileSet>, opens: map<string, bool>, byFile: map<string, seq<K>>,
    tables: map<string, map<K, V>>, erase: bool, items: map<K, V>)
  {
    && Lossless(c) && tables.Keys == byFile.Keys <= opens.Keys
    && (forall f | f in byFile :: Reads(c, Seen(files, opens, f), tables[f]))
    && (forall f | f in byFile :: byFile[f] != [] && NoDuplicates(byFile[f]))
    && (forall f | f in byFile :: forall k | k in byFile[f] :: if erase then k in tables[f] else k in items)
  }

  method SaveFiles<K(==, !new), V(!new)>(
    disk: Disk, codec: Codec<K, V>, opens: map<string, bool>, byFile: map<string, seq<K>>,
    erase: bool, items: map<K, V>, ghost tables: map<string, map<K, V>>)
    returns (opens': map<string, bool>)
    requires SaverInput(codec, disk.Files(), opens, byFile, tables, erase, items)
    modifies disk`shadow
    ensures Contained(old(disk.Files()), disk.Files(), opens, opens', byFile)
    ensures forall f | f in byFile ::
      Reads(codec, Seen(disk.Files(), opens', f), Edited(tables[f], SetOf(byFile[f]), erase, items))
  {
    hide Together, Contained, EditedExcept, Reads, Seen, Neat, Edited, SaverInput;
    var todo := byFile.Keys;
    opens' := opens;
    SaverStarts(codec, disk.Files(), opens, byFile, tables, erase, items);
    while todo != {}
      invariant todo <= byFile.Keys
      invariant Contained(old(disk.Files()), disk.Files(), opens, opens', byFile)
      invariant EditedExcept(codec, disk.Files(), opens', byFile, tables, todo, erase, items)
    {
      var f :| f in todo;
      SaverTurn(codec, old(disk.Files()), disk.Files(), opens, opens', byFile, tables, todo, erase, items, f);
      ghost var files := disk.Files();
      var open' := true;
      if erase {
        open' := EraseBlock(disk, f, codec, opens'[f], byFile[f], tables[f]);
        ErasedAll(tables[f], byFile[f]);
      } else {
        open' := UpdateBlock(disk, f, codec, opens'[f], byFile[f], items, tables[f]);
      }
      SaverStep(codec, old(disk.Files()), files, disk.Files(), opens, opens', byFile, tables, todo, erase, items, f);
      opens' := opens'[f := open'];
      todo := todo - {f};
    }
    SaverEnds(codec, disk.Files(), opens', byFile, tables, erase, items);
  }

  lemma SaverStarts<K(!new), V(!new)>(
    c: Codec<K, V>, files: map<string, FileSet>, opens: map<string, bool>, byFile: map<string, seq<K>>,
    tables: map<string, map<K, V>>, erase: bool, items: map<K, V>)
    requires SaverInput(c, files, opens, byFile, tables, erase, items)
    ensures tables.Keys == byFile.Keys
    ensures Contained(files, files, opens, opens, byFile)
    ensures EditedExcept(c, files, opens, byFile, tables, byFile.Keys, erase, items)
  {
  }

  lemma SaverEnds<K(!new), V(!new)>(
    c: Codec<K, V>, files: map<string, FileSet>, opens: map<string, bool>, byFile: map<string, seq<K>>,
    tables: map<string, map<K, V>>, erase: bool, items: map<K, V>)
    requires tables.Keys == byFile.Keys
    requires EditedExcept(c, files, opens, byFile, tables, {}, erase, items)
    ensures forall f | f in byFile ::
      Reads(c, Seen(files, opens, f), Edited(tables[f], SetOf(byFile[f]), erase, items))
  {
  }

  lemma SaverTurn<K(!new), V(!new)>(
    c: Codec<K, V>, files0: map<string, FileSet>, files: map<string, FileSet>, opens0: map<string, bool>,
    opens: map<string, bool>,
    byFile: map<string, seq<K>>, tables: map<string, map<K, V>>, todo: set<string>, erase: bool, items: map<K, V>,
    f: string)
    requires SaverInput(c, files0, opens0, byFile, tables, erase, items)
    requires Contained(files0, files, opens0, opens, byFile)
    requires EditedExcept(c, files, opens, byFile, tables, todo, erase, items)
    requires f in todo && todo <= byFile.Keys
    ensures Lossless(c) && f in opens && byFile[f] != [] && NoDuplicates(byFile[f])
    ensures Reads(c, FilesAt(files, f).Current(opens[f]), tables[f])
    ensures forall k | k in byFile[f] :: if erase then k in tables[f] else k in items
  {
  }

  lemma SaverStep<K(!new), V(!new)>(
    c: Codec<K, V>, files0: map<string, FileSet>, files: map<string, FileSet>, files': map<string, FileSet>,
    opens0: map<string, bool>, opens: map<string, bool>,
    byFile: map<string, seq<K>>, tables: map<string, map<K, V>>, todo: set<string>, erase: bool, items: map<K, V>,
    f: string)
    requires Contained(files0, files, opens0, opens, byFile) && tables.Keys == byFile.Keys
    requires EditedExcept(c, files, opens, byFile, tables, todo, erase, items)
    requires f in todo && todo <= byFile.Keys && f in opens
    requires files' == files[f := FilesAt(files', f)]
    requires FilesAt(files', f).Stored() == FilesAt(files, f).Stored()
    requires Reads(c, FilesAt(files', f).Current(true),
                   if erase then tables[f] - SetOf(byFile[f]) else Edited(tables[f], SetOf(byFile[f]), false, items))
    ensures Contained(files0, files', opens0, opens[f := true], byFile)
    ensures EditedExcept(c, files', opens[f := true], byFile, tables, todo - {f}, erase, items)
  {
    hide Reads, Lossless;
    var opens' := opens[f := true];
    forall g ensures g != f ==> FilesAt(files', g) == FilesAt(files, g) && IsOpen(opens', g) == IsOpen(opens, g) {
    }
    assert Seen(files', opens', f) == FilesAt(files', f).Current(true);
    assert opens'.Keys == opens.Keys;
    forall g | g in byFile && g != f
      ensures Seen(files', opens', g) == Seen(files, opens, g) && (g in todo - {f} <==> g in todo)
    {
      assert FilesAt(files', g) == FilesAt(files, g) && IsOpen(opens', g) == IsOpen(opens, g);
    }
  }

  ghost predicate CommittedExcept(
    files0: map<string, FileSet>, files: map<string, FileSet>, opens: map<string, bool>, todo: set<string>) {
    forall f :: FilesAt(files, f) ==
      if f !in todo && IsOpen(opens, f) then Committed(FilesAt(files0, f)) else FilesAt(files0, f)
  }

  // The overlay loop of the composite commit.
  method CommitBlocks(disk: Disk, opens: map<string, bool>)
    modifies disk
    ensures CommittedExcept(old(disk.Files()), disk.Files(), opens, {})
  {
    var todo := opens.Keys;
    while todo != {}
      invariant todo <= opens.Keys
      invariant CommittedExcept(old(disk.Files()), disk.Files(), opens, todo)
    {
      var f :| f in todo;
      if opens[f] {
        disk.CommitBlock(f);
      }
      todo := todo - {f};
    }
  }

  ghost predicate RolledBackExcept(
    files0: map<string, FileSet>, files: map<string, FileSet>, opens: map<string, bool>, todo: set<string>) {
    forall f :: FilesAt(files, f) ==
      if f !in todo && IsOpen(opens, f) then RolledBack(FilesAt(files0, f)) else FilesAt(files0, f)
  }

  // The overlay loop of the composite rollback.
  method RollbackBlocks(disk: Disk, opens: map<string, bool>)
    modifies disk`shadow
    ensures RolledBackExcept(old(disk.Files()), disk.Files(), opens, {})
  {
    var todo := opens.Keys;
    while todo != {}
      invariant todo <= opens.Keys
      invariant RolledBackExcept(old(disk.Files()), disk.Files(), opens, todo)
    {
      var f :| f in todo;
      if opens[f] {
        disk.RollbackBlock(f);
      }
      todo := todo - {f};
    }
  }
}
