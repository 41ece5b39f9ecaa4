// The part of the file system that block files use. A block file called f
// owns four files, f, f.tr, f.m and f.m.tr; ShadowNames shows that those of
// different block files never meet, so they are kept as one record per name.
module Disks {
  import opened Wrappers
  import opened BlockFormat

  datatype FileSet = FileSet(
    data: Option<Bytes>,
    dataTr: Option<Bytes>,
    marks: Option<seq<Marker>>,
    marksTr: Option<seq<Marker>>)
  {
    // What a reader without a transaction sees, a missing file being empty.
    function Stored(): Image {
      Image(data.GetOr([]), marks.GetOr([]))
    }

    // What a reader inside a transaction sees.
    function Shadow(): Image {
      Image(dataTr.GetOr([]), marksTr.GetOr([]))
    }

    function Current(open: bool): Image {
      if open then Shadow() else Stored()
    }
  }

  const NO_FILES := FileSet(None, None, None, None)

  function FilesAt(files: map<string, FileSet>, path: string): FileSet {
    if path in files then files[path] else NO_FILES
  }

  // Data and markers under the names of the stored files, or of the shadows.
  datatype Pair = Pair(data: Option<Bytes>, marks: Option<seq<Marker>>)

  type Pairs = map<string, Pair>

  function PairAt(pairs: Pairs, path: string): Pair {
    if path in pairs then pairs[path] else Pair(None, None)
  }

  function Together(stored: Pairs, shadow: Pairs): map<string, FileSet> {
    map path | path in stored.Keys + shadow.Keys ::
      FileSet(PairAt(stored, path).data, PairAt(shadow, path).data, PairAt(stored, path).marks,
        PairAt(shadow, path).marks)
  }

  // The stored files do not depend on what is in the shadows.
  lemma StoredAlone(stored: Pairs, shadow: Pairs, shadow': Pairs)
    ensures forall path ::
      FilesAt(Together(stored, shadow'), path).Stored() == FilesAt(Together(stored, shadow), path).Stored()
  {
  }

  lemma TogetherAt(stored: Pairs, shadow: Pairs, path: string)
    ensures var f, tr := PairAt(stored, path), PairAt(shadow, path);
      FilesAt(Together(stored, shadow), path) == FileSet(f.data, tr.data, f.marks, tr.marks)
  {
  }

  lemma TogetherPut(stored: Pairs, shadow: Pairs, path: string, f: Pair, tr: Pair)
    ensures var files := Together(stored, shadow)[path := FileSet(f.data, tr.data, f.marks, tr.marks)];
      && Together(stored[path := f], shadow[path := tr]) == files
      && (f == PairAt(stored, path) ==> Together(stored, shadow[path := tr]) == files)
  {
  }

  // A method that modifies only the shadow field cannot, at any moment of its
  // run, have changed a stored file.
  class Disk {
    var stored: Pairs
    var shadow: Pairs

    function Files(): map<string, FileSet>
      reads this
    {
      Together(stored, shadow)
    }

    function At(path: string): FileSet
      reads this
    {
      FilesAt(Files(), path)
    }

    method WriteTr(path: string, pos: nat, buf: Bytes)
      requires At(path).dataTr.Some? && pos <= |At(path).dataTr.value|
      modifies `shadow
      ensures Files() == old(Files())[path :=
        old(At(path)).(dataTr := Some(Overwrite(old(At(path)).dataTr.value, pos, buf)))]
    {
      hide Together;
      TogetherAt(stored, shadow, path);
      var tr := PairAt(shadow, path);
      tr := tr.(data := Some(Overwrite(tr.data.value, pos, buf)));
      TogetherPut(stored, shadow, path, PairAt(stored, path), tr);
      shadow := shadow[path := tr];
    }

    method PutTr(path: string, content: Option<Bytes>)
      modifies `shadow
      ensures Files() == old(Files())[path := old(At(path)).(dataTr := content)]
    {
      hide Together;
      TogetherAt(stored, shadow, path);
      var tr := PairAt(shadow, path).(data := content);
      TogetherPut(stored, shadow, path, PairAt(stored, path), tr);
      shadow := shadow[path := tr];
    }

    method PutMarksTr(path: string, content: Option<seq<Marker>>)
      modifies `shadow
      ensures Files() == old(Files())[path := old(At(path)).(marksTr := content)]
    {
      hide Together;
      TogetherAt(stored, shadow, path);
      var tr := PairAt(shadow, path).(marks := content);
      TogetherPut(stored, shadow, path, PairAt(stored, path), tr);
      shadow := shadow[path := tr];
    }

    // block_file_loader::class_transaction::commit. The main file is removed
    // and the shadow, when there is one, takes its name; the same for markers.
    method CommitBlock(path: string)
      modifies this
      ensures Files() == old(Files())[path := Committed(old(At(path)))]
    {
      hide Together;
      TogetherAt(stored, shadow, path);
      var f, tr := PairAt(stored, path), PairAt(shadow, path);
      f := f.(data := None);
      if tr.data.Some? {
        f, tr := f.(data := tr.data), tr.(data := None);
      }
      f := f.(marks := None);
      if tr.marks.Some? {
        f, tr := f.(marks := tr.marks), tr.(marks := None);
      }
      TogetherPut(stored, shadow, path, f, tr);
      stored, shadow := stored[path := f], shadow[path := tr];
    }

    // class_transaction::rollback: the shadows are removed.
    method RollbackBlock(path: string)
      modifies `shadow
      ensures Files() == old(Files())[path := RolledBack(old(At(path)))]
    {
      hide Together;
      TogetherAt(stored, shadow, path);
      var tr := PairAt(shadow, path);
      if tr.data.Some? {
        tr := tr.(data := None);
      }
      if tr.marks.Some? {
        tr := tr.(marks := None);
      }
      TogetherPut(stored, shadow, path, PairAt(stored, path), tr);
      shadow := shadow[path := tr];
    }
  }

  function RolledBack(f: FileSet): (g: FileSet)
    ensures g.Stored() == f.Stored() && g.Shadow() == Image([], [])
  {
    f.(dataTr := None, marksTr := None)
  }

  function Committed(f: FileSet): (g: FileSet)
    ensures g.Stored() == f.Shadow()
  {
    FileSet(f.dataTr, None, f.marksTr, None)
  }
}
