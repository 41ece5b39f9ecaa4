// vector_loader: a sequence with an overlay of unsaved edits, kept in grouped
// block files and a file that holds its size. Working, saved and committed are
// the three sequences it stands for.
module VectorLoaders {
  import opened Wrappers
  import opened BlockFormat
  import opened Disks
  import opened BlockLoaders
  import opened FileSavers
  import opened BlockLayouts
  import opened Overlays

  ghost function AsMap<V>(s: seq<V>): map<nat, V> {
    map i: nat | i < |s| :: s[i]
  }

  ghost function Indices(n: nat): (s: set<nat>)
    ensures forall i: nat :: i in s <==> i < n
  {
    if n == 0 then {} else Indices(n - 1) + {n - 1}
  }

  lemma {:induction false} IndicesSize(n: nat)
    ensures |Indices(n)| == n
  {
    if n > 0 {
      IndicesSize(n - 1);
    }
  }

  // The size file holds n, or does not exist and n is zero.
  ghost predicate SizeIs(sc: Codec<nat, nat>, img: Image, n: nat) {
    Sound(sc, img) && (Table(sc, img) == map[0 := n] || (n == 0 && Table(sc, img) == map[]))
  }

  // The visible images of the size and of all block files hold s.
  ghost predicate Holds<V(!new)>(
    l: Layout<nat, V>, sc: Codec<nat, nat>, files: map<string, FileSet>, tx: Option<Transaction>, s: seq<V>)
    requires l.limit > 0
  {
    && SizeIs(sc, View(l, files, tx, l.Beside()), |s|)
    && BlocksHold(l, files, tx, AsMap(s))
  }

  lemma EmptyDirectory<V(!new)>(l: Layout<nat, V>, sc: Codec<nat, nat>)
    requires l.limit > 0
    ensures Holds(l, sc, map[], None, [])
  {
    EmptySound(sc, []);
    NoBlocks(l);
    assert View(l, map[], None, l.Beside()) == Image([], []);
    assert AsMap<V>([]) == map[];
  }

  // Through the overlay one sees exactly the indices below n.
  ghost predicate Spans<V>(overlay: map<nat, Edit<V>>, saved: seq<V>, n: nat) {
    WithOverlay(overlay, AsMap(saved)).Keys == Indices(n)
  }

  ghost function SeqSeen<V>(overlay: map<nat, Edit<V>>, saved: seq<V>, n: nat): (s: seq<V>)
    requires Spans(overlay, saved, n)
    ensures |s| == n
  {
    var m := WithOverlay(overlay, AsMap(saved));
    seq(n, i requires 0 <= i < n => assert i in Indices(n); m[i])
  }

  lemma SeenIs<V>(overlay: map<nat, Edit<V>>, saved: seq<V>, n: nat, s: seq<V>)
    requires WithOverlay(overlay, AsMap(saved)) == AsMap(s) && n == |s|
    ensures Spans(overlay, saved, n) && SeqSeen(overlay, saved, n) == s
  {
    assert AsMap(s).Keys == Indices(n);
    assert SeqSeen(overlay, saved, n) == s;
  }

  lemma SeenMap<V>(overlay: map<nat, Edit<V>>, saved: seq<V>, n: nat)
    requires Spans(overlay, saved, n)
    ensures WithOverlay(overlay, AsMap(saved)) == AsMap(SeqSeen(overlay, saved, n))
  {
    assert AsMap(SeqSeen(overlay, saved, n)).Keys == Indices(n);
  }

  lemma SeenAt<V>(overlay: map<nat, Edit<V>>, saved: seq<V>, n: nat, i: nat)
    requires Spans(overlay, saved, n)
    ensures i < n <==> if i in overlay then overlay[i].mark != Deleted else i < |saved|
    ensures i < n ==> SeqSeen(overlay, saved, n)[i] == if i in overlay then overlay[i].item else saved[i]
  {
    AliveKeys(overlay, AsMap(saved), i);
    assert i < n <==> i in Indices(n);
  }

  // The deleted slots are the saved indices that are no longer spanned.
  lemma DeletedSlots<V>(overlay: map<nat, Edit<V>>, saved: seq<V>, n: nat)
    requires OverlayFits(overlay, AsMap(saved)) && Spans(overlay, saved, n)
    ensures MarkedKeys(overlay, Deleted) == Indices(|saved|) - Indices(n)
    ensures forall i: nat | |saved| <= i < n :: i in MarkedKeys(overlay, Modified)
    ensures forall i: nat | i in MarkedKeys(overlay, Modified) :: i < n
  {
    forall i: nat ensures i in MarkedKeys(overlay, Deleted) <==> n <= i < |saved| {
      SeenAt(overlay, saved, n, i);
    }
    forall i: nat | |saved| <= i < n ensures i in MarkedKeys(overlay, Modified) {
      SeenAt(overlay, saved, n, i);
    }
    forall i: nat | i in MarkedKeys(overlay, Modified) ensures i < n {
      SeenAt(overlay, saved, n, i);
    }
  }

  class VectorLoader<V(!new)> {
    const disk: Disk
    const layout: Layout<nat, V>
    const sizeCodec: Codec<nat, nat>
    var size: nat
    var sizeWithOverlay: nat
    var overlay: map<nat, Edit<V>>
    var transaction: Option<Transaction>
    ghost var saved: seq<V>
    ghost var committed: seq<V>

    ghost predicate Layered()
      reads this, disk
    {
      && Usable(layout) && Lossless(sizeCodec)
      && Holds(layout, sizeCodec, disk.Files(), transaction, saved)
      && Holds(layout, sizeCodec, disk.Files(), None, committed)
      && size == |saved|
      && BlocksOnly(layout, transaction)
    }

    ghost predicate Valid()
      reads this, disk
    {
      && Layered()
      && OverlayFits(overlay, AsMap(saved))
      && Spans(overlay, saved, sizeWithOverlay)
    }

    ghost function Working(): seq<V>
      reads this
      requires Spans(overlay, saved, sizeWithOverlay)
    {
      SeqSeen(overlay, saved, sizeWithOverlay)
    }

    constructor (disk: Disk, layout: Layout<nat, V>, sizeCodec: Codec<nat, nat>, ghost contents: seq<V>)
      requires Usable(layout) && Lossless(sizeCodec) && Holds(layout, sizeCodec, disk.Files(), None, contents)
      ensures Valid() && this.disk == disk && this.layout == layout && this.sizeCodec == sizeCodec
      ensures Working() == saved == committed == contents
      ensures disk.Files() == old(disk.Files()) && transaction == None
    {
      hide Together, Holds, IsBlock, WithOverlay, Alive, OverlayFits, Lossless, Spans, SeqSeen;
      this.disk, this.layout, this.sizeCodec := disk, layout, sizeCodec;
      size, sizeWithOverlay, overlay, transaction := 0, 0, map[], None;
      saved, committed := contents, contents;
      new;
      size := LoadSize(contents);
      sizeWithOverlay := size;
      NoOverlay(AsMap(contents));
      SeenIs(map[], contents, size, contents);
    }

    method LoadSize(ghost contents: seq<V>) returns (n: nat)
      requires Usable(layout) && Holds(layout, sizeCodec, disk.Files(), None, contents)
      ensures n == |contents|
    {
      hide Together, Sound, Lossless, BlocksHold, Table;
      var items := ReadWhole(disk, layout.Beside(), sizeCodec);
      assert |contents| > 0 ==> 0 in items;
      n := 0;
      var todo := items.Keys;
      while todo != {}
        invariant todo <= items.Keys
        invariant n == |contents| || (n == 0 && todo == items.Keys)
      {
        var k :| k in todo;
        n := items[k];
        todo := todo - {k};
      }
    }

    // Whatever a crash leaves in the shadow files, the stored files hold the
    // committed layer. As saving modifies nothing but shadow files, this is so
    // at every moment of it.
    lemma CommittedAlways(shadow: Pairs)
      requires Valid()
      ensures Holds(layout, sizeCodec, Together(disk.stored, shadow), None, committed)
    {
      hide Holds, WithOverlay, OverlayFits, BlocksOnly, Together;
      StoredAlone(disk.stored, disk.shadow, shadow);
      SizeStored(layout, sizeCodec, disk.Files(), Together(disk.stored, shadow), committed);
    }

    method TakeTransaction(file: string) returns (open: bool)
      requires Layered() && IsBlock(layout, file)
      modifies `transaction
      ensures Layered() && transaction.Some? == old(transaction).Some?
      ensures open == Opened(layout, transaction, file)
    {
      hide Together, BlocksHold, IsBlock, View, SizeIs, Lossless;
      open := false;
      BlockIsNotBeside(layout, file);
      if transaction.Some? {
        var tx := transaction.value;
        if file !in tx.overlay {
          NullAdded(layout, disk.Files(), transaction, AsMap(saved), file);
          transaction := Some(tx.(overlay := tx.overlay[file := false]));
        }
        open := transaction.value.overlay[file];
      }
    }

    method LoadIndex(index: nat)
      requires Valid() && index < |saved| && index !in overlay
      modifies `overlay, `transaction
      ensures Valid() && Working() == old(Working())
      ensures overlay == old(overlay)[index := Edit(saved[index], Clean)]
    {
      hide Together, Sound, Lossless, BlocksHold, IsBlock, WithOverlay, OverlayFits, Alive, Part, Table, BlocksOnly,
        SizeIs,
        Spans, SeqSeen;
      BlockOfKey(layout, index);
      var file := layout.FileOf(index);
      var open := TakeTransaction(file);
      ReadPart(layout, disk.Files(), transaction, AsMap(saved), index);
      var item := ReadItem(disk, file, layout.codec, open, index);
      CleanAdded(overlay, AsMap(saved), index);
      SeenMap(overlay, saved, sizeWithOverlay);
      SeenIs(overlay[index := Edit(item, Clean)], saved, sizeWithOverlay, Working());
      overlay := overlay[index := Edit(item, Clean)];
    }

    method At(index: nat) returns (r: Result<V>)
      requires Valid()
      modifies `overlay, `transaction
      ensures Valid() && Working() == old(Working())
      ensures r == if index < |Working()| then Ok(Working()[index]) else Thrown
      ensures r.Ok? ==> index in overlay && overlay[index].mark != Deleted
    {
      hide Together, Layered, OverlayFits, Spans, SeqSeen;
      SeenAt(overlay, saved, sizeWithOverlay, index);
      if index in overlay && overlay[index].mark == Deleted {
        return Thrown;
      }
      if index in overlay {
        return Ok(overlay[index].item);
      }
      SizeKnown();
      if index >= size {
        return Thrown;
      }
      LoadIndex(index);
      return Ok(overlay[index].item);
    }

    lemma SizeKnown()
      requires Layered()
      ensures size == |saved|
    {
    }

    method Update(index: nat, f: V -> V) returns (r: Result<V>)
      requires Valid()
      modifies `overlay, `transaction
      ensures Valid()
      ensures r == if index < |old(Working())| then Ok(old(Working())[index]) else Thrown
      ensures Working() == if index < |old(Working())| then old(Working())[index := f(old(Working())[index])]
        else old(Working())
    {
      hide Together, Holds, IsBlock, OverlayFits, WithOverlay, Alive, Spans, SeqSeen, AsMap;
      r := At(index);
      if r.Ok? {
        SetSeen(overlay, saved, sizeWithOverlay, index, f(r.value));
        overlay := overlay[index := Edit(f(r.value), Modified)];
      }
    }

    function Size(): nat
      reads this
    {
      sizeWithOverlay
    }

    method PushBack(value: V)
      requires Valid()
      modifies `overlay, `sizeWithOverlay
      ensures Valid() && Working() == old(Working()) + [value]
    {
      hide Together, Holds, IsBlock, OverlayFits, WithOverlay, Alive, Spans, SeqSeen, AsMap;
      SetSeen(overlay, saved, sizeWithOverlay, sizeWithOverlay, value);
      overlay := overlay[Size() := Edit(value, Modified)];
      sizeWithOverlay := sizeWithOverlay + 1;
    }

    // An empty container throws.
    method PopBack() returns (ok: bool)
      requires Valid()
      modifies `overlay, `sizeWithOverlay
      ensures Valid() && ok == (old(Working()) != [])
      ensures Working() == if ok then old(Working())[..|old(Working())| - 1] else []
    {
      hide Together, Holds, IsBlock, OverlayFits, WithOverlay, Alive, Spans, SeqSeen, AsMap;
      if sizeWithOverlay == 0 {
        return false;
      }
      var last: nat := sizeWithOverlay - 1;
      PopSeen(overlay, saved, sizeWithOverlay, layout.codec.empty);
      if last !in overlay {
        overlay := overlay[last := Edit(layout.codec.empty, Deleted)];
      } else if size <= last {
        overlay := overlay - {last};
      } else {
        overlay := overlay[last := overlay[last].(mark := Deleted)];
      }
      sizeWithOverlay := last;
      return true;
    }

    method Clear()
      requires Valid()
      modifies `overlay, `sizeWithOverlay
      ensures Valid() && Working() == []
    {
      hide Together, Holds, IsBlock, OverlayFits, WithOverlay, Alive, Buried, Spans, SeqSeen;
      overlay, sizeWithOverlay := map[], 0;
      BuryAll(AsMap(saved), layout.codec.empty);
      for index := 0 to size
        invariant overlay == Buried(Indices(index), layout.codec.empty)
        modifies `overlay
      {
        BuryNext(index, layout.codec.empty);
        overlay := overlay[index := Edit(layout.codec.empty, Deleted)];
      }
      assert Indices(size) == AsMap(saved).Keys;
      assert AsMap<V>([]) == map[];
      SeenIs(overlay, saved, 0, []);
    }

    // Sorts a group of indices by block file.
    method GroupKeys(keys: seq<nat>) returns (byFile: map<string, seq<nat>>)
      requires layout.limit > 0 && NoDuplicates(keys)
      ensures Grouped(layout, keys, byFile)
    {
      hide Together, NoDuplicates, Grouped, Layout.FileOf;
      byFile := map[];
      NoneGrouped(layout, keys);
      for i := 0 to |keys|
        invariant Grouped(layout, keys[..i], byFile)
      {
        GroupStep(layout, keys, i, byFile);
        var file := layout.FileOf(keys[i]);
        byFile := byFile[file := (if file in byFile then byFile[file] else []) + [keys[i]]];
      }
      assert keys[..|keys|] == keys;
    }

    // The size after a group of indices has been erased or set.
    method FitSize(keys: seq<nat>, erase: bool)
      modifies `size
      ensures Fitted(old(size), keys, erase, size)
    {
      ghost var size0 := size;
      for i := 0 to |keys|
        invariant Fitted(size0, keys[..i], erase, size)
      {
        var key := keys[i];
        assert keys[..i + 1] == keys[..i] + [key];
        if erase {
          if size > key {
            size := key;
          }
        } else {
          if key >= size {
            size := key + 1;
          }
        }
      }
      assert keys[..|keys|] == keys;
    }

    // One round of save over the block files; t is the map they hold.
    method SaveGroup(keys: seq<nat>, erase: bool, items: map<nat, V>, ghost t: map<nat, V>)
      requires Usable(layout) && transaction.Some? && BlocksOnly(layout, transaction)
      requires BlocksHold(layout, disk.Files(), transaction, t)
      requires NoDuplicates(keys) && Editable(t, keys, erase, items)
      modifies `size, `transaction, disk`shadow
      ensures transaction.Some? && BlocksOnly(layout, transaction)
      ensures BlocksHold(layout, disk.Files(), transaction, Edited(t, SetOf(keys), erase, items))
      ensures Fitted(old(size), keys, erase, size)
      ensures View(layout, disk.Files(), transaction, layout.Beside()) ==
        old(View(layout, disk.Files(), transaction, layout.Beside()))
      ensures forall f :: FilesAt(disk.Files(), f).Stored() == FilesAt(old(disk.Files()), f).Stored()
    {
      hide Together, BlocksHold, BlocksOnly, View, NoDuplicates, Grouped, Edited, SetOf, Editable, Fitted, Lossless;
      var byFile := GroupKeys(keys);
      FitSize(keys, erase);
      var tx := SaveBlocks(disk, layout, transaction.value, keys, byFile, erase, items, t);
      transaction := Some(tx);
    }

    // Writes the size file.
    method SaveSize(ghost was: nat)
      requires Usable(layout) && Lossless(sizeCodec) && transaction.Some?
      requires SizeIs(sizeCodec, View(layout, disk.Files(), transaction, layout.Beside()), was)
      modifies `transaction, disk`shadow
      ensures transaction.Some? && transaction.value.overlay == old(transaction).value.overlay
      ensures OnlyBesideChanged(layout, old(disk.Files()), disk.Files())
      ensures SizeIs(sizeCodec, View(layout, disk.Files(), transaction, layout.Beside()), size)
    {
      hide Together, Sound, Table, Lossless, Neat;
      var file := layout.Beside();
      ghost var t := Table(sizeCodec, View(layout, disk.Files(), transaction, file));
      var keys: seq<nat>, items: map<nat, nat> := [0], map[];
      items := items[0 := size];
      var open := UpdateBlock(disk, file, sizeCodec, transaction.value.beside, keys, items, t);
      transaction := Some(transaction.value.(beside := open));
      assert Edited(t, SetOf(keys), false, items) == map[0 := size];
    }

    // Both rounds of save: the deleted indices, then the modified ones.
    method SaveOverlay()
      requires Valid() && transaction.Some?
      modifies `size, `transaction, disk`shadow
      ensures transaction.Some? && BlocksOnly(layout, transaction)
      ensures BlocksHold(layout, disk.Files(), transaction, AsMap(Working()))
      ensures size == sizeWithOverlay
      ensures View(layout, disk.Files(), transaction, layout.Beside()) ==
        old(View(layout, disk.Files(), transaction, layout.Beside()))
      ensures forall f :: FilesAt(disk.Files(), f).Stored() == FilesAt(old(disk.Files()), f).Stored()
    {
      hide Together, BlocksHold, BlocksOnly, OverlayFits, WithOverlay, Alive, NoDuplicates, SetOf, MarkedKeys, Edited,
        Lossless, View, SizeIs,
        Spans, SeqSeen, AsMap, Fitted, Editable, OnlyBesideChanged;
      var erased, modified := Classify(overlay);
      var items := map k | k in overlay :: overlay[k].item;
      SavedIsWorking(overlay, AsMap(saved), erased, modified, items);
      CanEdit(AsMap(saved), erased, modified, items);
      SeenMap(overlay, saved, sizeWithOverlay);
      DeletedSlots(overlay, saved, sizeWithOverlay);
      ghost var t, size0 := AsMap(saved), size;
      if erased != [] {
        SaveGroup(erased, true, items, t);
        t := Edited(t, SetOf(erased), true, items);
      }
      ghost var size1 := size;
      if modified != [] {
        SaveGroup(modified, false, items, t);
        t := Edited(t, SetOf(modified), false, items);
      }
      SizeFits(overlay, size0, size1, size, sizeWithOverlay, erased, modified);
    }

    method Save()
      requires Valid()
      modifies this, disk`shadow
      ensures Valid() && Working() == old(Working())
      ensures saved == old(Working()) && overlay == map[] && committed == old(committed)
      ensures size == sizeWithOverlay
    {
      hide Together, BlocksHold, BlocksOnly, OverlayFits, WithOverlay, Alive, Lossless, View, SizeIs, Spans, SeqSeen,
        AsMap,
        OnlyBesideChanged;
      NoOverlay(AsMap(saved));
      if overlay == map[] {
        NothingSeen(saved, sizeWithOverlay);
        return;
      }
      ghost var files0 := disk.Files();
      if transaction == None {
        EmptyTransaction(layout, disk.Files(), AsMap(saved));
        transaction := Some(Transaction(false, map[]));
      }
      SaveOverlay();
      ghost var target, files1, tx1 := Working(), disk.Files(), transaction;
      overlay := map[];
      SaveSize(|saved|);
      BesideKept(layout, files1, disk.Files(), tx1, transaction, AsMap(target));
      SizeStored(layout, sizeCodec, files0, disk.Files(), committed);
      saved := target;
      NoOverlay(AsMap(saved));
      SeenIs(overlay, saved, sizeWithOverlay, target);
    }

    method Commit()
      requires Valid()
      modifies this, disk
      ensures Valid() && Working() == old(Working())
      ensures saved == old(saved) && committed == old(saved) && transaction == None
    {
      hide Together, BlocksHold, IsBlock, OverlayFits, WithOverlay, Alive, CommittedExcept, View, SizeIs, Lossless,
        Spans,
        SeqSeen, AsMap;
      if transaction.Some? {
        ghost var files0 := disk.Files();
        CommitBlocks(disk, transaction.value.overlay);
        ghost var files1 := disk.Files();
        if transaction.value.beside {
          disk.CommitBlock(layout.Beside());
        }
        CommittedView(layout, files0, files1, disk.Files(), transaction.value, AsMap(saved));
        transaction := None;
        committed := saved;
      } else {
        SameSeq(layout, disk.Files(), saved, committed);
      }
    }

    method Discard()
      requires Valid()
      modifies this, disk`shadow
      ensures Valid()
      ensures Working() == saved == committed == old(committed)
      ensures transaction == None && overlay == map[]
      ensures forall f :: FilesAt(disk.Files(), f).Stored() == FilesAt(old(disk.Files()), f).Stored()
    {
      hide Together, BlocksHold, IsBlock, OverlayFits, WithOverlay, Alive, View, SizeIs, Lossless, Spans, SeqSeen,
        AsMap;
      if transaction.Some? {
        ghost var files0 := disk.Files();
        RollbackBlocks(disk, transaction.value.overlay);
        if transaction.value.beside {
          disk.RollbackBlock(layout.Beside());
        }
        StoredKept(layout, files0, disk.Files(), AsMap(committed));
        transaction := None;
      }
      overlay := map[];
      size := LoadSize(committed);
      sizeWithOverlay := size;
      saved := committed;
      NoOverlay(AsMap(saved));
      SeenIs(overlay, saved, sizeWithOverlay, saved);
    }
  }

  ghost predicate Fitted(size0: nat, keys: seq<nat>, erase: bool, size: nat) {
    if erase then
      size <= size0 && (size == size0 || size in keys) && forall k | k in keys :: size <= k
    else
      size0 <= size && (size == size0 || (size > 0 && size - 1 in keys)) && forall k | k in keys :: k < size
  }

  // After both rounds the stored size is the size seen through the overlay.
  lemma SizeFits<V>(
    overlay: map<nat, Edit<V>>, size0: nat, size1: nat, size2: nat, n: nat, erased: seq<nat>,
    modified: seq<nat>)
    requires SetOf(erased) == MarkedKeys(overlay, Deleted) && SetOf(modified) == MarkedKeys(overlay, Modified)
    requires MarkedKeys(overlay, Deleted) == Indices(size0) - Indices(n)
    requires forall i: nat | size0 <= i < n :: i in MarkedKeys(overlay, Modified)
    requires forall i: nat | i in MarkedKeys(overlay, Modified) :: i < n
    requires if erased == [] then size1 == size0 else Fitted(size0, erased, true, size1)
    requires if modified == [] then size2 == size1 else Fitted(size1, modified, false, size2)
    ensures size2 == n
  {
    assert forall k: nat :: k in erased <==> k in SetOf(erased);
    assert forall k: nat :: k in modified <==> k in SetOf(modified);
    if n < size0 {
      assert n in Indices(size0) - Indices(n);
      assert n in erased;
    } else {
      if size0 < n {
        var last: nat := n - 1;
        assert last in modified;
      }
      assert Indices(size0) - Indices(n) == {};
      assert erased != [] ==> erased[0] in SetOf(erased);
      if modified != [] && size2 != size1 {
        var top: nat := size2 - 1;
        assert top in modified;
      }
    }
  }

  lemma CanEdit<V(!new)>(t: map<nat, V>, erased: seq<nat>, modified: seq<nat>, items: map<nat, V>)
    requires forall k | k in erased :: k in t
    requires forall k | k in modified :: k in items
    ensures Editable(t, erased, true, items)
    ensures forall u: map<nat, V> :: Editable(u, modified, false, items)
  {
  }

  lemma NothingSeen<V>(saved: seq<V>, n: nat)
    requires Spans(map[], saved, n)
    ensures n == |saved| && SeqSeen(map[], saved, n) == saved
  {
    SeenMap(map[], saved, n);
    NoOverlay(AsMap(saved));
    SameKeys(saved, SeqSeen(map[], saved, n));
  }

  lemma SameKeys<V>(s: seq<V>, t: seq<V>)
    requires AsMap(s) == AsMap(t)
    ensures s == t
  {
    assert AsMap(s).Keys == Indices(|s|) && AsMap(t).Keys == Indices(|t|);
    IndicesSize(|s|);
    IndicesSize(|t|);
    forall i: nat | i < |s| ensures s[i] == t[i] {
      assert AsMap(s)[i] == AsMap(t)[i];
    }
  }

  lemma SameSeq<V(!new)>(l: Layout<nat, V>, files: map<string, FileSet>, s: seq<V>, t: seq<V>)
    requires Usable(l) && BlocksHold(l, files, None, AsMap(s)) && BlocksHold(l, files, None, AsMap(t))
    ensures s == t
  {
    BlocksHoldUnique(l, files, None, AsMap(s), AsMap(t));
    SameKeys(s, t);
  }

  lemma SizeStored<V(!new)>(
    l: Layout<nat, V>, sc: Codec<nat, nat>, files: map<string, FileSet>, files': map<string, FileSet>,
    s: seq<V>)
    requires l.limit > 0 && Holds(l, sc, files, None, s)
    requires forall f :: FilesAt(files', f).Stored() == FilesAt(files, f).Stored()
    ensures Holds(l, sc, files', None, s)
  {
    hide BlocksHold, SizeIs, View;
    StoredKept(l, files, files', AsMap(s));
  }

  lemma SavedIndex<V>(saved: seq<V>, i: nat)
    ensures i in AsMap(saved) <==> i < |saved|
  {
  }

  lemma Shorter<V>(s: seq<V>)
    requires s != []
    ensures AsMap(s) - {|s| - 1} == AsMap(s[..|s| - 1])
  {
  }

  lemma BuryNext<V>(i: nat, empty: V)
    ensures Buried(Indices(i + 1), empty) == Buried(Indices(i), empty)[i := Edit(empty, Deleted)]
  {
  }

  lemma SetSeen<V>(overlay: map<nat, Edit<V>>, saved: seq<V>, n: nat, i: nat, v: V)
    requires OverlayFits(overlay, AsMap(saved)) && Spans(overlay, saved, n) && i <= n
    ensures var o := overlay[i := Edit(v, Modified)]; var s := SeqSeen(overlay, saved, n);
      var n' := if i < n then n else n + 1;
      && OverlayFits(o, AsMap(saved)) && Spans(o, saved, n')
      && SeqSeen(o, saved, n') == if i < n then s[i := v] else s + [v]
  {
    hide WithOverlay, Alive, OverlayFits, Spans, SeqSeen;
    var o := overlay[i := Edit(v, Modified)];
    var s := SeqSeen(overlay, saved, n);
    var s' := if i < n then s[i := v] else s + [v];
    EditedOverlay(overlay, AsMap(saved), i, v);
    SeenMap(overlay, saved, n);
    assert AsMap(s)[i := v] == AsMap(s');
    SeenIs(o, saved, |s'|, s');
  }

  lemma PopSeen<V>(overlay: map<nat, Edit<V>>, saved: seq<V>, n: nat, empty: V)
    requires OverlayFits(overlay, AsMap(saved)) && Spans(overlay, saved, n) && n > 0
    ensures var i: nat := n - 1; var s := SeqSeen(overlay, saved, n);
      var o :=
        if i !in overlay then overlay[i := Edit(empty, Deleted)]
        else if |saved| <= i then overlay - {i}
        else overlay[i := overlay[i].(mark := Deleted)];
      && OverlayFits(o, AsMap(saved)) && Spans(o, saved, n - 1)
      && SeqSeen(o, saved, n - 1) == s[..n - 1]
  {
    hide WithOverlay, Alive, OverlayFits, Spans, SeqSeen, AsMap;
    var i: nat, s := n - 1, SeqSeen(overlay, saved, n);
    SavedIndex(saved, i);
    SeenAt(overlay, saved, n, i);
    ErasedOverlay(overlay, AsMap(saved), i, empty);
    SeenMap(overlay, saved, n);
    var o :=
      if i !in overlay then overlay[i := Edit(empty, Deleted)]
      else if |saved| <= i then overlay - {i}
      else overlay[i := overlay[i].(mark := Deleted)];
    Shorter(s);
    SeenIs(o, saved, i, s[..i]);
  }
}
