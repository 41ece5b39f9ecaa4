// How a container spreads a map over block files, one per spread value, next
// to one further file, seen through an optional open transaction. The map
// container spreads by hash and keeps an index beside the blocks; the vector
// container spreads by group number and keeps its size beside them.
module BlockLayouts {
  import opened Wrappers
  import opened BlockFormat
  import opened Disks
  import opened FileNames
  import opened FileSavers

  // The composite transaction: whether the file beside the blocks, and which
  // block files, have a transaction of their own. false is a null pointer.
  datatype Transaction = Transaction(beside: bool, overlay: map<string, bool>)

  datatype Layout<!K, !V> = Layout(name: string, limit: nat, spread: K -> nat, suffix: string, codec: Codec<K, V>) {
    function FileOf(key: K): string
      requires limit > 0
    {
      BlockName(name, spread(key) % limit)
    }

    function Beside(): string {
      name + "." + suffix
    }
  }

  function HashedLayout<V>(name: string, limit: nat, hash: string -> nat, codec: Codec<string, V>): Layout<string, V> {
    Layout(name, limit, hash, "index", codec)
  }

  function GroupedLayout<V>(name: string, limit: nat, group: nat, codec: Codec<nat, V>): Layout<nat, V>
    requires group > 0
  {
    Layout(name, limit, (i: nat) => i / group, "size", codec)
  }

  ghost predicate Usable<K(!new), V(!new)>(l: Layout<K, V>) {
    l.limit > 0 && Lossless(l.codec) && l.suffix != [] && !('0' <= l.suffix[0] <= '9')
  }

  lemma HashedUsable<V(!new)>(name: string, limit: nat, hash: string -> nat, codec: Codec<string, V>)
    requires limit > 0 && Lossless(codec)
    ensures Usable(HashedLayout(name, limit, hash, codec))
  {
  }

  lemma GroupedUsable<V(!new)>(name: string, limit: nat, group: nat, codec: Codec<nat, V>)
    requires limit > 0 && group > 0 && Lossless(codec)
    ensures Usable(GroupedLayout(name, limit, group, codec))
  {
  }

  // Two keys of a map share a block file exactly if their hashes agree modulo
  // limit.
  lemma HashedTogether<V(!new)>(
    name: string, limit: nat, hash: string -> nat, codec: Codec<string, V>, j: string, k: string)
    requires limit > 0
    ensures var l := HashedLayout(name, limit, hash, codec);
      l.FileOf(j) == l.FileOf(k) <==> hash(j) % limit == hash(k) % limit
  {
    hide BlockName;
    BlockNameTells(name, hash(j) % limit, hash(k) % limit);
  }

  // Two indices of a vector share one exactly if their group numbers do.
  lemma GroupedTogether<V(!new)>(name: string, limit: nat, group: nat, codec: Codec<nat, V>, i: nat, j: nat)
    requires limit > 0 && group > 0
    ensures var l := GroupedLayout(name, limit, group, codec);
      l.FileOf(i) == l.FileOf(j) <==> i / group % limit == j / group % limit
  {
    hide BlockName;
    BlockNameTells(name, i / group % limit, j / group % limit);
  }

  // f is one of the container's block files.
  ghost predicate IsBlock<K(!new), V(!new)>(l: Layout<K, V>, f: string)
    requires l.limit > 0
  {
    exists key: K :: l.FileOf(key) == f
  }

  lemma BlockOfKey<K(!new), V(!new)>(l: Layout<K, V>, key: K)
    requires Usable(l)
    ensures IsBlock(l, l.FileOf(key)) && l.FileOf(key) != l.Beside()
  {
    BesideBlocks(l.name, l.spread(key) % l.limit, l.suffix);
  }

  lemma BlockIsNotBeside<K(!new), V(!new)>(l: Layout<K, V>, f: string)
    requires Usable(l) && IsBlock(l, f)
    ensures f != l.Beside()
  {
    var key :| l.FileOf(key) == f;
    BlockOfKey(l, key);
  }

  predicate Opened<K, V>(l: Layout<K, V>, tx: Option<Transaction>, f: string) {
    && tx.Some?
    && (if f == l.Beside() then tx.value.beside else IsOpen(tx.value.overlay, f))
  }

  // What a reader sees at f, given the open transactions.
  ghost function View<K, V>(l: Layout<K, V>, files: map<string, FileSet>, tx: Option<Transaction>, f: string): Image {
    FilesAt(files, f).Current(Opened(l, tx, f))
  }

  // The part of the map that belongs in block file f.
  ghost function Part<K, V>(l: Layout<K, V>, t: map<K, V>, f: string): map<K, V>
    requires l.limit > 0
  {
    map k | k in t && l.FileOf(k) == f :: t[k]
  }

  // Each block file shows its part of t.
  ghost predicate BlocksHold<K(!new), V(!new)>(
    l: Layout<K, V>, files: map<string, FileSet>, tx: Option<Transaction>, t: map<K, V>)
    requires l.limit > 0
  {
    forall f | IsBlock(l, f) :: Reads(l.codec, View(l, files, tx, f), Part(l, t, f))
  }

  ghost predicate BlocksOnly<K(!new), V(!new)>(l: Layout<K, V>, tx: Option<Transaction>)
    requires l.limit > 0
  {
    tx.Some? ==> forall f | f in tx.value.overlay :: IsBlock(l, f)
  }

  lemma BlocksHoldUnique<K(!new), V(!new)>(
    l: Layout<K, V>, files: map<string, FileSet>, tx: Option<Transaction>, t: map<K, V>, u: map<K, V>)
    requires Usable(l) && BlocksHold(l, files, tx, t) && BlocksHold(l, files, tx, u)
    ensures t == u
  {
    hide Sound, Table, View, Layout.FileOf, IsBlock;
    forall k ensures (k in t <==> k in u) && (k in t ==> t[k] == u[k]) {
      BlockOfKey(l, k);
      assert Part(l, t, l.FileOf(k)) == Part(l, u, l.FileOf(k));
      assert k in t <==> k in Part(l, t, l.FileOf(k));
      assert k in u <==> k in Part(l, u, l.FileOf(k));
    }
  }

  lemma NoBlocks<K(!new), V(!new)>(l: Layout<K, V>)
    requires l.limit > 0
    ensures BlocksHold(l, map[], None, map[])
  {
    forall f | IsBlock(l, f) ensures Reads(l.codec, View(l, map[], None, f), Part(l, map[], f)) {
      EmptySound(l.codec, []);
      assert View(l, map[], None, f) == Image([], []);
    }
  }

  // Registering a file without a transaction changes nothing that is seen.
  lemma NullAdded<K(!new), V(!new)>(
    l: Layout<K, V>, files: map<string, FileSet>, tx: Option<Transaction>, t: map<K, V>, f: string)
    requires l.limit > 0 && BlocksHold(l, files, tx, t) && BlocksOnly(l, tx) && tx.Some?
    requires IsBlock(l, f) && f !in tx.value.overlay
    ensures var tx' := Some(tx.value.(overlay := tx.value.overlay[f := false]));
      && BlocksHold(l, files, tx', t) && BlocksOnly(l, tx')
      && forall g :: View(l, files, tx', g) == View(l, files, tx, g)
  {
    hide Reads;
    var tx' := Some(tx.value.(overlay := tx.value.overlay[f := false]));
    forall g ensures View(l, files, tx', g) == View(l, files, tx, g) {
    }
  }

  lemma EmptyTransaction<K(!new), V(!new)>(l: Layout<K, V>, files: map<string, FileSet>, t: map<K, V>)
    requires l.limit > 0 && BlocksHold(l, files, None, t)
    ensures var tx := Some(Transaction(false, map[]));
      && BlocksHold(l, files, tx, t) && BlocksOnly(l, tx)
      && View(l, files, tx, l.Beside()) == View(l, files, None, l.Beside())
  {
    hide Reads;
    forall f ensures View(l, files, Some(Transaction(false, map[])), f) == View(l, files, None, f) {
    }
  }

  lemma ReadPart<K(!new), V(!new)>(
    l: Layout<K, V>, files: map<string, FileSet>, tx: Option<Transaction>, t: map<K, V>, key: K)
    requires Usable(l) && BlocksHold(l, files, tx, t) && key in t
    ensures var img := View(l, files, tx, l.FileOf(key));
      Sound(l.codec, img) && key in Table(l.codec, img) && Table(l.codec, img)[key] == t[key]
  {
    BlockOfKey(l, key);
  }

  // Only what is stored matters to a reader without a transaction.
  lemma StoredKept<K(!new), V(!new)>(
    l: Layout<K, V>, files: map<string, FileSet>, files': map<string, FileSet>, t: map<K, V>)
    requires l.limit > 0 && BlocksHold(l, files, None, t)
    requires forall f :: FilesAt(files', f).Stored() == FilesAt(files, f).Stored()
    ensures BlocksHold(l, files', None, t) && View(l, files', None, l.Beside()) == View(l, files, None, l.Beside())
  {
    hide Reads;
    forall f ensures View(l, files', None, f) == View(l, files, None, f) {
    }
  }

  // What a transaction shows is what is stored after its commit.
  lemma CommittedView<K(!new), V(!new)>(
    l: Layout<K, V>, files0: map<string, FileSet>, files1: map<string, FileSet>, files: map<string, FileSet>,
    tx: Transaction, t: map<K, V>)
    requires Usable(l) && BlocksHold(l, files0, Some(tx), t) && BlocksOnly(l, Some(tx))
    requires CommittedExcept(files0, files1, tx.overlay, {})
    requires files == if tx.beside then files1[l.Beside() := Committed(FilesAt(files1, l.Beside()))] else files1
    ensures BlocksHold(l, files, None, t) && View(l, files, None, l.Beside()) == View(l, files0, Some(tx), l.Beside())
  {
    hide Reads, IsBlock;
    assert l.Beside() !in tx.overlay by {
      if l.Beside() in tx.overlay { BlockIsNotBeside(l, l.Beside()); }
    }
    forall f | IsBlock(l, f) ensures View(l, files, None, f) == View(l, files0, Some(tx), f) {
      BlockIsNotBeside(l, f);
      assert FilesAt(files1, f) == if IsOpen(tx.overlay, f) then Committed(FilesAt(files0, f)) else FilesAt(files0, f);
    }
  }

  // byFile lists each key under the file it belongs to.
  ghost predicate Grouped<K(!new), V(!new)>(l: Layout<K, V>, keys: seq<K>, byFile: map<string, seq<K>>)
    requires l.limit > 0
  {
    && (forall f | f in byFile :: byFile[f] != [] && NoDuplicates(byFile[f]))
    && (forall f | f in byFile :: forall k | k in byFile[f] :: k in keys && l.FileOf(k) == f)
    && (forall k | k in keys :: l.FileOf(k) in byFile && k in byFile[l.FileOf(k)])
  }

  lemma NoneGrouped<K(!new), V(!new)>(l: Layout<K, V>, keys: seq<K>)
    requires l.limit > 0
    ensures Grouped(l, keys[..0], map[])
  {
  }

  lemma GroupStep<K(!new), V(!new)>(l: Layout<K, V>, keys: seq<K>, i: nat, byFile: map<string, seq<K>>)
    requires l.limit > 0 && i < |keys| && NoDuplicates(keys) && Grouped(l, keys[..i], byFile)
    ensures var f := l.FileOf(keys[i]);
      Grouped(l, keys[..i + 1], byFile[f := (if f in byFile then byFile[f] else []) + [keys[i]]])
  {
    hide Layout.FileOf;
    var f := l.FileOf(keys[i]);
    var group := if f in byFile then byFile[f] else [];
    var byFile' := byFile[f := group + [keys[i]]];
    assert keys[..i + 1] == keys[..i] + [keys[i]];
    assert NoDuplicates(group + [keys[i]]) by {
      assert keys[i] !in keys[..i];
      forall j | 0 <= j < |group| ensures group[j] != keys[i] {
        assert group[j] in group;
      }
    }
    forall k | k in keys[..i + 1] ensures l.FileOf(k) in byFile' && k in byFile'[l.FileOf(k)] {
      if k == keys[i] {
        assert (group + [keys[i]])[|group|] == k;
      }
    }
  }

  lemma GroupFile<K(!new), V(!new)>(l: Layout<K, V>, keys: seq<K>, byFile: map<string, seq<K>>, f: string)
    requires Usable(l) && Grouped(l, keys, byFile) && f in byFile
    ensures IsBlock(l, f) && f != l.Beside()
  {
    var k := byFile[f][0];
    assert k in byFile[f];
    BlockOfKey(l, k);
  }

  function WithNulls(opens: map<string, bool>, files: set<string>): map<string, bool> {
    (map f | f in files :: false) + opens
  }

  // Registers the files of a group with the transaction, as null pointers
  // when they are new to it.
  method RegisterFiles(overlay: map<string, bool>, files: set<string>) returns (opens: map<string, bool>)
    ensures opens == WithNulls(overlay, files)
  {
    opens := overlay;
    var todo := files;
    while todo != {}
      invariant todo <= files && opens == WithNulls(overlay, files - todo)
    {
      var f :| f in todo;
      if f !in opens {
        opens := opens[f := false];
      }
      todo := todo - {f};
    }
    assert files - {} == files;
  }

  ghost function Tables<K(!new), V(!new)>(
    l: Layout<K, V>, t: map<K, V>, byFile: map<string, seq<K>>): map<string, map<K, V>>
    requires l.limit > 0
  {
    map f | f in byFile :: Part(l, t, f)
  }

  ghost predicate Editable<K(!new), V(!new)>(t: map<K, V>, keys: seq<K>, erase: bool, items: map<K, V>) {
    forall k | k in keys :: if erase then k in t else k in items
  }

  lemma EditedKeys<K(!new), V(!new)>(t: map<K, V>, keys: seq<K>, erase: bool, items: map<K, V>)
    requires Editable(t, keys, erase, items)
    ensures Edited(t, SetOf(keys), erase, items).Keys == if erase then t.Keys - SetOf(keys) else t.Keys + SetOf(keys)
  {
  }

  // The block file of an edited key shows the edited part; the others are untouched.
  lemma PartEdited<K(!new), V(!new)>(
    l: Layout<K, V>, t: map<K, V>, keys: seq<K>, byFile: map<string, seq<K>>, erase: bool, items: map<K, V>,
    f: string)
    requires l.limit > 0 && Grouped(l, keys, byFile)
    ensures var target := Edited(t, SetOf(keys), erase, items);
      Part(l, target, f) == if f in byFile then Edited(Part(l, t, f), SetOf(byFile[f]), erase, items) else Part(l, t, f)
  {
    hide Layout.FileOf, NoDuplicates;
    var target := Edited(t, SetOf(keys), erase, items);
    if f in byFile {
      assert forall k :: k in byFile[f] <==> k in keys && l.FileOf(k) == f;
      var part := Edited(Part(l, t, f), SetOf(byFile[f]), erase, items);
      assert forall k :: k in Part(l, target, f) <==> k in part;
      assert forall k | k in part :: Part(l, target, f)[k] == part[k];
    } else {
      assert forall k | k in keys :: l.FileOf(k) != f;
      assert forall k :: k in Part(l, target, f) <==> k in Part(l, t, f);
    }
  }

  // The files other than the one beside the blocks are the same.
  ghost predicate OnlyBesideChanged<K, V>(l: Layout<K, V>, files: map<string, FileSet>, files': map<string, FileSet>) {
    && (files' == files || files' == files[l.Beside() := FilesAt(files', l.Beside())])
    && FilesAt(files', l.Beside()).Stored() == FilesAt(files, l.Beside()).Stored()
  }

  lemma BesideKept<K(!new), V(!new)>(
    l: Layout<K, V>, files: map<string, FileSet>, files': map<string, FileSet>, tx: Option<Transaction>,
    tx': Option<Transaction>, t: map<K, V>)
    requires Usable(l) && BlocksHold(l, files, tx, t) && OnlyBesideChanged(l, files, files')
    requires tx.Some? && tx'.Some? && tx'.value.overlay == tx.value.overlay
    ensures BlocksHold(l, files', tx', t)
    ensures BlocksOnly(l, tx) ==> BlocksOnly(l, tx')
    ensures forall f :: FilesAt(files', f).Stored() == FilesAt(files, f).Stored()
  {
    hide Reads, IsBlock;
    forall f | IsBlock(l, f) ensures View(l, files', tx', f) == View(l, files, tx, f) {
      BlockIsNotBeside(l, f);
    }
  }

  // A transaction with more null pointers, about to be used by SaveFiles.
  lemma GroupInput<K(!new), V(!new)>(
    l: Layout<K, V>, files: map<string, FileSet>, tx: Option<Transaction>, t: map<K, V>,
    keys: seq<K>, byFile: map<string, seq<K>>, erase: bool, items: map<K, V>)
    requires Usable(l) && BlocksHold(l, files, tx, t) && tx.Some?
    requires Grouped(l, keys, byFile) && Editable(t, keys, erase, items)
    ensures SaverInput(l.codec, files, WithNulls(tx.value.overlay, byFile.Keys), byFile, Tables(l, t, byFile),
      erase, items)
  {
    hide Reads, Layout.FileOf;
    var opens := WithNulls(tx.value.overlay, byFile.Keys);
    forall f | f in byFile ensures Reads(l.codec, Seen(files, opens, f), Part(l, t, f)) {
      GroupFile(l, keys, byFile, f);
      assert Seen(files, opens, f) == View(l, files, tx, f);
    }
  }

  // The block files have been brought from files to files'.
  ghost predicate RoundDone<K(!new), V(!new)>(
    l: Layout<K, V>, files: map<string, FileSet>, files': map<string, FileSet>, tx: Option<Transaction>,
    tx': Option<Transaction>,
    t: map<K, V>, keys: seq<K>, byFile: map<string, seq<K>>, erase: bool, items: map<K, V>)
  {
    && Usable(l) && BlocksHold(l, files, tx, t) && BlocksOnly(l, tx) && tx.Some? && tx'.Some?
    && Grouped(l, keys, byFile)
    && tx'.value.beside == tx.value.beside
    && Contained(files, files', WithNulls(tx.value.overlay, byFile.Keys), tx'.value.overlay, byFile)
    && forall f | f in byFile ::
      Reads(l.codec, Seen(files', tx'.value.overlay, f),
        Edited(Tables(l, t, byFile)[f], SetOf(byFile[f]), erase, items))
  }

  lemma RoundBlock<K(!new), V(!new)>(
    l: Layout<K, V>, files: map<string, FileSet>, files': map<string, FileSet>, tx: Option<Transaction>,
    tx': Option<Transaction>,
    t: map<K, V>, keys: seq<K>, byFile: map<string, seq<K>>, erase: bool, items: map<K, V>, f: string)
    requires RoundDone(l, files, files', tx, tx', t, keys, byFile, erase, items) && IsBlock(l, f)
    ensures Reads(l.codec, View(l, files', tx', f), Part(l, Edited(t, SetOf(keys), erase, items), f))
  {
    hide Reads, Layout.FileOf, Part, Grouped, Edited, SetOf, IsBlock, Lossless;
    BlockIsNotBeside(l, f);
    PartEdited(l, t, keys, byFile, erase, items, f);
    if f in byFile {
      assert View(l, files', tx', f) == Seen(files', tx'.value.overlay, f);
    } else {
      assert View(l, files', tx', f) == View(l, files, tx, f);
    }
  }

  lemma RoundOthers<K(!new), V(!new)>(
    l: Layout<K, V>, files: map<string, FileSet>, files': map<string, FileSet>, tx: Option<Transaction>,
    tx': Option<Transaction>,
    t: map<K, V>, keys: seq<K>, byFile: map<string, seq<K>>, erase: bool, items: map<K, V>)
    requires RoundDone(l, files, files', tx, tx', t, keys, byFile, erase, items)
    ensures View(l, files', tx', l.Beside()) == View(l, files, tx, l.Beside())
    ensures forall f :: FilesAt(files', f).Stored() == FilesAt(files, f).Stored()
    ensures BlocksOnly(l, tx')
  {
    hide Reads, Layout.FileOf, Part, Grouped, Edited, SetOf, IsBlock, Lossless;
    forall f | f in byFile ensures IsBlock(l, f) && f != l.Beside() {
      GroupFile(l, keys, byFile, f);
    }
  }

  // One round of save over the block files is one edit of the map.
  lemma GroupAfter<K(!new), V(!new)>(
    l: Layout<K, V>, files: map<string, FileSet>, files': map<string, FileSet>, tx: Option<Transaction>,
    tx': Option<Transaction>,
    t: map<K, V>, keys: seq<K>, byFile: map<string, seq<K>>, erase: bool, items: map<K, V>)
    requires RoundDone(l, files, files', tx, tx', t, keys, byFile, erase, items)
    ensures Usable(l) && BlocksHold(l, files', tx', Edited(t, SetOf(keys), erase, items)) && BlocksOnly(l, tx')
    ensures View(l, files', tx', l.Beside()) == View(l, files, tx, l.Beside())
    ensures forall f :: FilesAt(files', f).Stored() == FilesAt(files, f).Stored()
  {
    hide Reads, Edited, SetOf, IsBlock, Part, View, Contained, Seen, Grouped;
    RoundOthers(l, files, files', tx, tx', t, keys, byFile, erase, items);
    forall f | IsBlock(l, f)
      ensures Reads(l.codec, View(l, files', tx', f), Part(l, Edited(t, SetOf(keys), erase, items), f))
    {
      RoundBlock(l, files, files', tx, tx', t, keys, byFile, erase, items, f);
    }
  }

  // The block file part of one round of save.
  method SaveBlocks<K(==, !new), V(!new)>(
    disk: Disk, l: Layout<K, V>, tx: Transaction, keys: seq<K>, byFile: map<string, seq<K>>,
    erase: bool, items: map<K, V>, ghost t: map<K, V>)
    returns (tx': Transaction)
    requires Usable(l) && BlocksHold(l, disk.Files(), Some(tx), t) && BlocksOnly(l, Some(tx))
    requires Grouped(l, keys, byFile) && Editable(t, keys, erase, items)
    modifies disk`shadow
    ensures BlocksHold(l, disk.Files(), Some(tx'), Edited(t, SetOf(keys), erase, items)) && BlocksOnly(l, Some(tx'))
    ensures View(l, disk.Files(), Some(tx'), l.Beside()) == old(View(l, disk.Files(), Some(tx), l.Beside()))
    ensures forall f :: FilesAt(disk.Files(), f).Stored() == FilesAt(old(disk.Files()), f).Stored()
  {
    hide Together, BlocksHold, BlocksOnly, Reads, Edited, SetOf, View, Contained, Seen, Grouped, WithNulls, Tables,
      Editable,
      SaverInput, Lossless;
    ghost var files := disk.Files();
    var opens := RegisterFiles(tx.overlay, byFile.Keys);
    GroupInput(l, disk.Files(), Some(tx), t, keys, byFile, erase, items);
    opens := SaveFiles(disk, l.codec, opens, byFile, erase, items, Tables(l, t, byFile));
    tx' := tx.(overlay := opens);
    GroupAfter(l, files, disk.Files(), Some(tx), Some(tx'), t, keys, byFile, erase, items);
  }
}
