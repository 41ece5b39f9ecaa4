// map_loader: a string-keyed map with an overlay of unsaved edits, kept in an
// index file and hashed block files. Working, saved and committed are the
// three maps it stands for.
module MapLoaders {
  import opened Wrappers
  import opened BlockFormat
  import opened Disks
  import opened BlockLoaders
  import opened FileSavers
  import opened BlockLayouts
  import opened Overlays

  // The index file holds, for every key of the map, the name of its block file.
  ghost function IndexOf<V(!new)>(l: Layout<string, V>, keys: set<string>): map<string, string>
    requires l.limit > 0
  {
    map k | k in keys :: l.FileOf(k)
  }

  // The visible images of the index and of all block files hold t.
  ghost predicate Holds<V(!new)>(
    l: Layout<string, V>, ic: Codec<string, string>, files: map<string, FileSet>, tx: Option<Transaction>,
    t: map<string, V>)
    requires l.limit > 0
  {
    && Reads(ic, View(l, files, tx, l.Beside()), IndexOf(l, t.Keys))
    && BlocksHold(l, files, tx, t)
  }

  // A directory without any of the files holds the empty map.
  lemma EmptyDirectory<V(!new)>(l: Layout<string, V>, ic: Codec<string, string>)
    requires l.limit > 0
    ensures Holds(l, ic, map[], None, map[])
  {
    EmptySound(ic, []);
    NoBlocks(l);
    assert View(l, map[], None, l.Beside()) == Image([], []);
  }

  class MapLoader<V(!new)> {
    const disk: Disk
    const layout: Layout<string, V>
    const indexCodec: Codec<string, string>
    var index: map<string, string>
    var indexToRollback: map<string, string>
    var keysWithOverlay: set<string>
    var overlay: map<string, Edit<V>>
    var transaction: Option<Transaction>
    ghost var saved: map<string, V>
    ghost var committed: map<string, V>

    // The files agree with the saved and the committed map.
    ghost predicate Layered()
      reads this, disk
    {
      && Usable(layout) && Lossless(indexCodec)
      && Holds(layout, indexCodec, disk.Files(), transaction, saved)
      && Holds(layout, indexCodec, disk.Files(), None, committed)
      && index == IndexOf(layout, saved.Keys)
      && indexToRollback == IndexOf(layout, committed.Keys)
      && BlocksOnly(layout, transaction)
    }

    ghost predicate Valid()
      reads this, disk
    {
      && Layered()
      && OverlayFits(overlay, saved)
      && keysWithOverlay == Working().Keys
    }

    ghost function Working(): map<string, V>
      reads this
    {
      WithOverlay(overlay, saved)
    }

    // Opens a container whose committed files hold the given map. Shadow files
    // left behind by an earlier process are not looked at.
    constructor (
      disk: Disk, layout: Layout<string, V>, indexCodec: Codec<string, string>, ghost contents: map<string, V>)
      requires Usable(layout) && Lossless(indexCodec) && Holds(layout, indexCodec, disk.Files(), None, contents)
      ensures Valid() && this.disk == disk && this.layout == layout && this.indexCodec == indexCodec
      ensures Working() == saved == committed == contents
      ensures disk.Files() == old(disk.Files()) && transaction == None
    {
      hide Together, Holds, IsBlock, WithOverlay, Alive, OverlayFits, Lossless;
      this.disk, this.layout, this.indexCodec := disk, layout, indexCodec;
      index, indexToRollback, keysWithOverlay, overlay, transaction := map[], map[], {}, map[], None;
      saved, committed := contents, contents;
      new;
      index := LoadIndex(contents);
      indexToRollback := index;
      keysWithOverlay := index.Keys;
      NoOverlay(contents);
    }

    method LoadIndex(ghost contents: map<string, V>) returns (index: map<string, string>)
      requires Usable(layout) && Holds(layout, indexCodec, disk.Files(), None, contents)
      ensures index == IndexOf(layout, contents.Keys)
    {
      hide Together, Sound, Lossless, BlocksHold, Table;
      index := ReadWhole(disk, layout.Beside(), indexCodec);
    }

    lemma IndexKeys()
      requires Layered()
      ensures index.Keys == saved.Keys && indexToRollback.Keys == committed.Keys
    {
    }

    // Whatever a crash leaves in the shadow files, the stored files hold the
    // committed layer. As saving modifies nothing but shadow files, this is so
    // at every moment of it.
    lemma CommittedAlways(shadow: Pairs)
      requires Valid()
      ensures Holds(layout, indexCodec, Together(disk.stored, shadow), None, committed)
    {
      hide Holds, WithOverlay, OverlayFits, BlocksOnly, Together;
      StoredAlone(disk.stored, disk.shadow, shadow);
      BesideStored(layout, indexCodec, disk.Files(), Together(disk.stored, shadow), committed);
    }

    // With no transaction open nothing is saved that is not committed.
    lemma NothingOpen()
      requires Valid() && transaction == None
      ensures saved == committed && index == indexToRollback
    {
      hide BlocksHold, Reads, OverlayFits, WithOverlay;
      BlocksHoldUnique(layout, disk.Files(), None, saved, committed);
    }

    // Takes the transaction of a block file out of the composite one.
    method TakeTransaction(file: string) returns (open: bool)
      requires Layered() && IsBlock(layout, file)
      modifies `transaction
      ensures Layered() && transaction.Some? == old(transaction).Some?
      ensures open == Opened(layout, transaction, file)
    {
      hide Together, BlocksHold, IsBlock, View, Reads, Lossless;
      open := false;
      BlockIsNotBeside(layout, file);
      if transaction.Some? {
        var tx := transaction.value;
        if file !in tx.overlay {
          NullAdded(layout, disk.Files(), transaction, saved, file);
          transaction := Some(tx.(overlay := tx.overlay[file := false]));
        }
        open := transaction.value.overlay[file];
      }
    }

    // Brings a stored value into the overlay.
    method LoadKey(key: string)
      requires Valid() && key in saved && key !in overlay
      modifies `overlay, `transaction
      ensures Valid() && Working() == old(Working())
      ensures overlay == old(overlay)[key := Edit(saved[key], Clean)]
    {
      hide Together, Sound, Lossless, BlocksHold, IsBlock, WithOverlay, OverlayFits, Alive, Part, Table, BlocksOnly;
      BlockOfKey(layout, key);
      var file := layout.FileOf(key);
      var open := TakeTransaction(file);
      ReadPart(layout, disk.Files(), transaction, saved, key);
      var item := ReadItem(disk, file, layout.codec, open, key);
      CleanAdded(overlay, saved, key);
      overlay := overlay[key := Edit(item, Clean)];
    }

    method At(key: string) returns (r: Result<V>)
      requires Valid()
      modifies `overlay, `transaction
      ensures Valid() && Working() == old(Working())
      ensures r == if key in Working() then Ok(Working()[key]) else Thrown
      ensures r.Ok? ==> key in overlay && overlay[key].mark != Deleted
    {
      hide Together, Layered, OverlayFits;
      if key in overlay && overlay[key].mark == Deleted {
        return Thrown;
      }
      if key in overlay {
        return Ok(overlay[key].item);
      }
      IndexKeys();
      if key !in index {
        return Thrown;
      }
      LoadKey(key);
      return Ok(overlay[key].item);
    }

    // The non-const at, and the caller's assignment through the reference.
    method Update(key: string, f: V -> V) returns (r: Result<V>)
      requires Valid()
      modifies `overlay, `transaction
      ensures Valid()
      ensures r == if key in old(Working()) then Ok(old(Working())[key]) else Thrown
      ensures Working() == if key in old(Working()) then old(Working())[key := f(old(Working())[key])]
        else old(Working())
    {
      hide Together, Holds, IsBlock, OverlayFits, WithOverlay, Alive;
      r := At(key);
      if r.Ok? {
        EditedOverlay(overlay, saved, key, f(r.value));
        overlay := overlay[key := Edit(f(r.value), Modified)];
      }
    }

    method Insert(key: string, value: V) returns (inserted: bool)
      requires Valid()
      modifies `overlay, `keysWithOverlay
      ensures Valid()
      ensures inserted == (key !in old(Working()))
      ensures Working() == if inserted then old(Working())[key := value] else old(Working())
    {
      hide Together, Holds, BlocksOnly, Lossless, IndexOf, IsBlock, OverlayFits, WithOverlay, Alive;
      IndexKeys();
      AliveKeys(overlay, saved, key);
      if key in overlay && overlay[key].mark != Deleted {
        return false;
      }
      if key !in overlay && key in index {
        return false;
      }
      EditedOverlay(overlay, saved, key, value);
      overlay := overlay[key := Edit(value, Modified)];
      keysWithOverlay := keysWithOverlay + {key};
      return true;
    }

    method Erase(key: string) returns (erased: bool)
      requires Valid()
      modifies `overlay, `keysWithOverlay
      ensures Valid()
      ensures erased == (key in old(Working()))
      ensures Working() == old(Working()) - {key}
    {
      hide Together, Holds, BlocksOnly, Lossless, IndexOf, IsBlock, OverlayFits, WithOverlay, Alive;
      IndexKeys();
      AliveKeys(overlay, saved, key);
      if key in overlay && overlay[key].mark == Deleted {
        return false;
      }
      if key !in overlay {
        if key !in index {
          return false;
        }
      }
      ErasedOverlay(overlay, saved, key, layout.codec.empty);
      if key !in overlay {
        overlay := overlay[key := Edit(layout.codec.empty, Deleted)];
      } else if key !in index {
        overlay := overlay - {key};
      } else {
        overlay := overlay[key := overlay[key].(mark := Deleted)];
      }
      keysWithOverlay := keysWithOverlay - {key};
      return true;
    }

    function Keys(): set<string>
      reads this
    {
      keysWithOverlay
    }

    predicate Contains(key: string)
      reads this
    {
      key in keysWithOverlay
    }

    method Clear()
      requires Valid()
      modifies `overlay, `keysWithOverlay
      ensures Valid() && Working() == map[]
    {
      hide Together, Holds, BlocksOnly, Lossless, IndexOf, IsBlock, OverlayFits, WithOverlay, Alive, Buried;
      IndexKeys();
      overlay, keysWithOverlay := map[], {};
      var todo := index.Keys;
      BuryAll(saved, layout.codec.empty);
      while todo != {}
        invariant todo <= index.Keys
        invariant overlay == Buried(index.Keys - todo, layout.codec.empty)
        modifies `overlay
      {
        var k :| k in todo;
        BuryOne(index.Keys, todo, k, layout.codec.empty);
        overlay := overlay[k := Edit(layout.codec.empty, Deleted)];
        todo := todo - {k};
      }
      assert index.Keys - todo == saved.Keys;
    }

    // Names the file of each key that the index does not hold yet, and sorts
    // the keys by file.
    method SortKeys(temp: BlockLoader<string, string>, keys: seq<string>, ghost have: set<string>)
      returns (byFile: map<string, seq<string>>)
      requires layout.limit > 0 && NoDuplicates(keys)
      requires temp.values.Keys == SetOf(keys) && NamesOf(layout, have, temp.values) && !temp.modified
      modifies temp`values, temp`modified
      ensures temp.values == Assigned(old(temp.values), keys, IndexOf(layout, SetOf(keys)))
      ensures temp.modified <==> exists k | k in keys :: k !in have
      ensures Grouped(layout, keys, byFile)
    {
      hide Together, NoDuplicates, Grouped, Assigned, IndexOf, NamesOf;
      ghost var loaded, names := temp.values, IndexOf(layout, SetOf(keys));
      byFile := map[];
      NoneGrouped(layout, keys);
      NoneAssigned(loaded, keys, names);
      for i := 0 to |keys|
        invariant temp.values == Assigned(loaded, keys[..i], names)
        invariant temp.modified <==> exists j | 0 <= j < i :: keys[j] !in have
        invariant Grouped(layout, keys[..i], byFile)
        modifies temp`values, temp`modified
      {
        var key := keys[i];
        NameStep(layout, loaded, have, keys, i);
        GroupStep(layout, keys, i, byFile);
        var file;
        if temp.values[key].index == None {
          file := layout.FileOf(key);
          temp.Assign(key, file);
        } else {
          file := temp.Item(key);
        }
        byFile := byFile[file := (if file in byFile then byFile[file] else []) + [key]];
      }
      assert keys[..|keys|] == keys;
    }

    // Brings a group of keys into the index file, and sorts them by block file.
    method SaveIndex(keys: seq<string>, erase: bool, ghost have: set<string>) returns (byFile: map<string, seq<string>>)
      requires Usable(layout) && Lossless(indexCodec) && transaction.Some?
      requires Reads(indexCodec, View(layout, disk.Files(), transaction, layout.Beside()), IndexOf(layout, have))
      requires keys != [] && NoDuplicates(keys) && (erase ==> SetOf(keys) <= have)
      modifies disk`shadow, `transaction
      ensures transaction.Some? && transaction.value.overlay == old(transaction).value.overlay
      ensures OnlyBesideChanged(layout, old(disk.Files()), disk.Files())
      ensures Reads(indexCodec, View(layout, disk.Files(), transaction, layout.Beside()),
                    IndexOf(layout, if erase then have - SetOf(keys) else have + SetOf(keys)))
      ensures Grouped(layout, keys, byFile)
    {
      hide Together, Reads, Lossless, NoDuplicates, Grouped, IndexOf, SetOf;
      var open;
      open, byFile := WriteIndex(transaction.value.beside, keys, erase, have);
      transaction := Some(transaction.value.(beside := open));
    }

    // The index block on its own: open tells whether it has a transaction.
    method WriteIndex(open: bool, keys: seq<string>, erase: bool, ghost have: set<string>)
      returns (open': bool, byFile: map<string, seq<string>>)
      requires Usable(layout) && Lossless(indexCodec)
      requires Reads(indexCodec, disk.At(layout.Beside()).Current(open), IndexOf(layout, have))
      requires keys != [] && NoDuplicates(keys) && (erase ==> SetOf(keys) <= have)
      modifies disk`shadow
      ensures disk.Files() == old(disk.Files())
        || disk.Files() == old(disk.Files())[layout.Beside() := disk.At(layout.Beside())]
      ensures disk.At(layout.Beside()).Stored() == old(disk.At(layout.Beside())).Stored()
      ensures Reads(indexCodec, disk.At(layout.Beside()).Current(open'),
                    IndexOf(layout, if erase then have - SetOf(keys) else have + SetOf(keys)))
      ensures Grouped(layout, keys, byFile)
    {
      hide Together, Sound, Table, Snapshot, Placed, Lossless, Neat, NoDuplicates, Grouped, Assigned, Items, IndexOf,
        NamesOf;
      var indexFile := layout.Beside();
      ghost var img := disk.At(indexFile).Current(open);
      var temp: BlockLoader<string, string> := new BlockLoader(disk, indexFile, indexCodec, open);
      var ok := temp.Load(keys, false);
      assert ok;
      ghost var loaded := temp.values;
      SnapshotPlaced(loaded, Rows(indexCodec, img), SetOf(keys), indexCodec.empty);
      LoadedNames(layout, indexCodec, img, have, keys, loaded);
      byFile := SortKeys(temp, keys, have);
      AllNamed(layout, loaded, Rows(indexCodec, img), have, keys);
      if erase {
        temp.Erase();
      } else {
        temp.Save();
      }
      open' := temp.open;
    }

    // Edits the index in memory.
    method EditIndex(keys: seq<string>, erase: bool)
      requires layout.limit > 0
      modifies `index
      ensures index == EditedIndex(layout, old(index), SetOf(keys), erase)
    {
      hide Together, EditedIndex, Layout.FileOf, SetOf;
      ghost var index0 := index;
      EditedByNone(layout, index0, keys, erase);
      for i := 0 to |keys|
        invariant index == EditedIndex(layout, index0, SetOf(keys[..i]), erase)
      {
        EditedByOne(layout, index0, keys, i, erase);
        if erase {
          index := index - {keys[i]};
        } else if keys[i] !in index {
          index := index[keys[i] := layout.FileOf(keys[i])];
        }
      }
      assert keys[..|keys|] == keys;
    }

    // One round of save: a group of keys that are all erased or all set.
    method SaveGroup(keys: seq<string>, erase: bool, items: map<string, V>)
      requires Layered() && transaction.Some?
      requires keys != [] && NoDuplicates(keys) && Editable(saved, keys, erase, items)
      modifies `index, `transaction, `saved, disk`shadow
      ensures Layered() && transaction.Some?
      ensures saved == Edited(old(saved), SetOf(keys), erase, items)
    {
      hide Together, BlocksHold, Reads, NoDuplicates, Grouped, IndexOf, Edited, View, BlocksOnly, EditedIndex, SetOf,
        Editable,
        OnlyBesideChanged,
        Usable, Lossless;
      ghost var files0, tx0 := disk.Files(), transaction;
      UsableLimit(layout);
      EditedKeys(saved, keys, erase, items);
      ErasedKeys(saved, keys, items);
      var byFile := SaveIndex(keys, erase, saved.Keys);
      BesideKept(layout, files0, disk.Files(), tx0, transaction, saved);
      EditIndex(keys, erase);
      IndexEdited(layout, saved.Keys, keys, erase);
      var tx := SaveBlocks(disk, layout, transaction.value, keys, byFile, erase, items, saved);
      transaction := Some(tx);
      BesideStored(layout, indexCodec, files0, disk.Files(), committed);
      saved := Edited(saved, SetOf(keys), erase, items);
    }

    method OpenTransaction()
      requires Layered()
      modifies `transaction
      ensures Layered() && transaction.Some?
    {
      hide BlocksHold, BlocksOnly, IndexOf, Lossless, View, Reads, Together;
      if transaction == None {
        EmptyTransaction(layout, disk.Files(), saved);
        transaction := Some(Transaction(false, map[]));
      }
    }

    method Save()
      requires Valid()
      modifies this, disk`shadow
      ensures Valid() && Working() == old(Working())
      ensures saved == old(Working()) && overlay == map[] && committed == old(committed)
    {
      hide Together, Holds, BlocksOnly, IndexOf, Lossless, OverlayFits, WithOverlay, Alive, NoDuplicates, SetOf,
        MarkedKeys,
        Edited;
      NoOverlay(saved);
      if overlay == map[] {
        return;
      }
      OpenTransaction();
      var erased, modified := Classify(overlay);
      var items := map k | k in overlay :: overlay[k].item;
      SavedIsWorking(overlay, saved, erased, modified, items);
      if erased != [] {
        SaveGroup(erased, true, items);
      }
      if modified != [] {
        SaveGroup(modified, false, items);
      }
      overlay := map[];
      NoOverlay(saved);
    }

    method Commit()
      requires Valid()
      modifies this, disk
      ensures Valid() && Working() == old(Working())
      ensures saved == old(saved) && committed == old(saved) && transaction == None
    {
      hide Together, BlocksHold, IsBlock, OverlayFits, WithOverlay, Alive, IndexOf, CommittedExcept, View, Reads,
        Lossless;
      if transaction.Some? {
        ghost var files0 := disk.Files();
        CommitBlocks(disk, transaction.value.overlay);
        ghost var files1 := disk.Files();
        if transaction.value.beside {
          disk.CommitBlock(layout.Beside());
        }
        CommittedView(layout, files0, files1, disk.Files(), transaction.value, saved);
        transaction := None;
        indexToRollback := index;
        committed := saved;
      } else {
        BlocksHoldUnique(layout, disk.Files(), None, saved, committed);
      }
    }

    // Without a transaction there is nothing to roll back, and the index is
    // already the one to go back to: the source terminates if it is not.
    method Discard()
      requires Valid()
      modifies this, disk`shadow
      ensures Valid()
      ensures Working() == saved == committed == old(committed)
      ensures transaction == None && overlay == map[]
      ensures forall f :: FilesAt(disk.Files(), f).Stored() == FilesAt(old(disk.Files()), f).Stored()
    {
      hide Together, BlocksHold, IsBlock, OverlayFits, WithOverlay, Alive, IndexOf, View, Reads, Lossless;
      if transaction.Some? {
        ghost var files0 := disk.Files();
        RollbackBlocks(disk, transaction.value.overlay);
        if transaction.value.beside {
          disk.RollbackBlock(layout.Beside());
        }
        StoredKept(layout, files0, disk.Files(), committed);
        transaction := None;
        index := indexToRollback;
      } else {
        BlocksHoldUnique(layout, disk.Files(), None, saved, committed);
        assert index == indexToRollback;
      }
      saved := committed;
      overlay := map[];
      keysWithOverlay := index.Keys;
      IndexKeys();
      NoOverlay(saved);
    }
  }

  lemma UsableLimit<V(!new)>(l: Layout<string, V>)
    requires Usable(l)
    ensures l.limit > 0
  {
  }

  lemma BesideStored<V(!new)>(
    l: Layout<string, V>, ic: Codec<string, string>, files: map<string, FileSet>, files': map<string, FileSet>,
    t: map<string, V>)
    requires l.limit > 0 && Holds(l, ic, files, None, t)
    requires forall f :: FilesAt(files', f).Stored() == FilesAt(files, f).Stored()
    ensures Holds(l, ic, files', None, t)
  {
    hide BlocksHold, Reads, View;
    StoredKept(l, files, files', t);
  }

  lemma ErasedKeys<V(!new)>(saved: map<string, V>, keys: seq<string>, items: map<string, V>)
    ensures Editable(saved, keys, true, items) ==> SetOf(keys) <= saved.Keys
  {
  }

  ghost function EditedIndex<V(!new)>(
    l: Layout<string, V>, index: map<string, string>, keys: set<string>, erase: bool): map<string, string>
    requires l.limit > 0
  {
    if erase then index - keys else IndexOf(l, keys) + index
  }

  lemma EditedByNone<V(!new)>(l: Layout<string, V>, index: map<string, string>, keys: seq<string>, erase: bool)
    requires l.limit > 0
    ensures EditedIndex(l, index, SetOf(keys[..0]), erase) == index
  {
    assert SetOf(keys[..0]) == {};
  }

  lemma EditedByOne<V(!new)>(l: Layout<string, V>, index: map<string, string>, keys: seq<string>, i: nat, erase: bool)
    requires l.limit > 0 && i < |keys|
    ensures var before := EditedIndex(l, index, SetOf(keys[..i]), erase); var k := keys[i];
      EditedIndex(l, index, SetOf(keys[..i + 1]), erase) ==
        if erase then before - {k} else if k !in before then before[k := l.FileOf(k)] else before
  {
    hide Layout.FileOf;
    assert keys[..i + 1] == keys[..i] + [keys[i]];
    assert SetOf(keys[..i + 1]) == SetOf(keys[..i]) + {keys[i]};
  }

  lemma IndexEdited<V(!new)>(l: Layout<string, V>, have: set<string>, keys: seq<string>, erase: bool)
    requires l.limit > 0
    ensures EditedIndex(l, IndexOf(l, have), SetOf(keys), erase) ==
      IndexOf(l, if erase then have - SetOf(keys) else have + SetOf(keys))
  {
    hide Layout.FileOf;
  }

  // The index already holds the right file name for every stored key.
  ghost predicate NamesOf<V(!new)>(l: Layout<string, V>, have: set<string>, loaded: map<string, Loaded<string>>)
    requires l.limit > 0
  {
    forall k | k in loaded :: (loaded[k].index.Some? <==> k in have) && (k in have ==> loaded[k].item == l.FileOf(k))
  }

  lemma LoadedNames<V(!new)>(
    l: Layout<string, V>, ic: Codec<string, string>, img: Image, have: set<string>, keys: seq<string>,
    loaded: map<string, Loaded<string>>)
    requires l.limit > 0 && Reads(ic, img, IndexOf(l, have)) && keys != []
    requires Snapshot(loaded, Rows(ic, img), Wanted(ic, img, keys), ic.empty)
    ensures loaded.Keys == SetOf(keys)
    ensures NamesOf(l, have, loaded)
  {
    LoadedIsTable(ic, img, loaded, keys);
  }

  lemma NoneAssigned(loaded: map<string, Loaded<string>>, keys: seq<string>, names: map<string, string>)
    ensures Assigned(loaded, keys[..0], names) == loaded
  {
  }

  lemma NameStep<V(!new)>(
    l: Layout<string, V>, loaded: map<string, Loaded<string>>, have: set<string>, keys: seq<string>, i: nat)
    requires l.limit > 0 && i < |keys| && NoDuplicates(keys) && loaded.Keys == SetOf(keys)
    requires NamesOf(l, have, loaded)
    ensures var names := IndexOf(l, SetOf(keys)); var k := keys[i];
      var before := Assigned(loaded, keys[..i], names);
      && k in before && (before[k].index.Some? <==> k in have)
      && (k in have ==> before[k].item == l.FileOf(k) && Assigned(loaded, keys[..i + 1], names) == before)
      && Assigned(loaded, keys[..i + 1], names) == before[k := before[k].(item := l.FileOf(k))]
  {
    hide Layout.FileOf;
    var names := IndexOf(l, SetOf(keys));
    assert keys[i] in SetOf(keys);
    AssignStep(loaded, keys, names, i);
    assert keys[i] !in keys[..i];
  }

  lemma AllNamed<V(!new)>(
    l: Layout<string, V>, loaded: map<string, Loaded<string>>, rows: seq<Row<string, string>>,
    have: set<string>, keys: seq<string>)
    requires l.limit > 0 && loaded.Keys == SetOf(keys) && Placed(loaded, rows) && keys != []
    ensures var names := IndexOf(l, SetOf(keys)); var values := Assigned(loaded, keys, names);
      && values != map[] && Placed(values, rows) && values.Keys == SetOf(keys)
      && Items(values) == names
    ensures IndexOf(l, have) + IndexOf(l, SetOf(keys)) == IndexOf(l, have + SetOf(keys))
    ensures IndexOf(l, have) - SetOf(keys) == IndexOf(l, have - SetOf(keys))
    ensures SetOf(keys) <= have ==> have + SetOf(keys) == have
  {
    hide Layout.FileOf;
    var names := IndexOf(l, SetOf(keys));
    AllAssigned(loaded, rows, keys, names);
    assert names == map k | k in SetOf(keys) && k in names :: names[k];
  }
}
