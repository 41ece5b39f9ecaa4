// Whole runs of a map_loader, against three plain maps.
module MapRuns {
  import opened Wrappers
  import opened BlockFormat
  import opened Disks
  import opened FileSavers
  import opened BlockLayouts
  import opened Overlays
  import opened MapLoaders

  // Crash ends the process at any moment outside of a commit, in the middle of
  // a save for instance, and leaves anything at all in the shadow files. Close
  // ends it with the commit of the destructor. Both are followed by opening
  // the container again.
  datatype Op<!V> =
    | Insert(key: string, value: V)
    | Update(key: string, f: V -> V)
    | At(key: string)
    | Erase(key: string)
    | Contains(key: string)
    | Keys
    | Clear
    | Save
    | Commit
    | Discard
    | Crash(shadow: Pairs)
    | Close

  datatype Outcome<+V> = Nothing | Flag(flag: bool) | Found(found: Result<V>) | KeySet(keys: set<string>)

  datatype Layers<+V> = Layers(working: map<string, V>, saved: map<string, V>, committed: map<string, V>)

  function Lookup<V>(m: map<string, V>, key: string): Result<V> {
    if key in m then Ok(m[key]) else Thrown
  }

  // What the operation means for the three maps.
  function Step<V>(s: Layers<V>, op: Op<V>): Layers<V> {
    match op
    case Insert(key, value) => if key in s.working then s else s.(working := s.working[key := value])
    case Update(key, f) => if key in s.working then s.(working := s.working[key := f(s.working[key])]) else s
    case At(_) | Contains(_) | Keys => s
    case Erase(key) => s.(working := s.working - {key})
    case Clear => s.(working := map[])
    case Save => s.(saved := s.working)
    case Commit => s.(committed := s.saved)
    case Discard | Crash(_) => Layers(s.committed, s.committed, s.committed)
    case Close => Layers(s.saved, s.saved, s.saved)
  }

  function Answer<V>(s: Layers<V>, op: Op<V>): Outcome<V> {
    match op
    case Insert(key, _) => Flag(key !in s.working)
    case Update(key, _) => Found(Lookup(s.working, key))
    case At(key) => Found(Lookup(s.working, key))
    case Erase(key) => Flag(key in s.working)
    case Contains(key) => Flag(key in s.working)
    case Keys => KeySet(s.working.Keys)
    case Clear | Save | Commit | Discard | Crash(_) | Close => Nothing
  }

  function After<V>(s: Layers<V>, ops: seq<Op<V>>): Layers<V> {
    if ops == [] then s else Step(After(s, ops[..|ops| - 1]), ops[|ops| - 1])
  }

  function Answers<V>(s: Layers<V>, ops: seq<Op<V>>): seq<Outcome<V>> {
    if ops == [] then []
    else Answers(s, ops[..|ops| - 1]) + [Answer(After(s, ops[..|ops| - 1]), ops[|ops| - 1])]
  }

  ghost function LayersOf<V(!new)>(m: MapLoader<V>): Layers<V>
    reads m
  {
    Layers(m.Working(), m.saved, m.committed)
  }

  method Do<V(!new)>(m: MapLoader<V>, op: Op<V>) returns (m': MapLoader<V>, answer: Outcome<V>)
    requires m.Valid()
    modifies m, m.disk
    ensures m'.Valid() && m'.disk == m.disk && m'.layout == m.layout && m'.indexCodec == m.indexCodec
      && (m' == m || fresh(m'))
    ensures LayersOf(m') == Step(old(LayersOf(m)), op) && answer == Answer(old(LayersOf(m)), op)
  {
    hide Together, Holds, WithOverlay, OverlayFits, IndexOf, BlocksOnly;
    m', answer := m, Nothing;
    match op
    case Insert(key, value) =>
      var inserted := m.Insert(key, value);
      answer := Flag(inserted);
    case Update(key, f) =>
      var found := m.Update(key, f);
      answer := Found(found);
    case At(key) =>
      var found := m.At(key);
      answer := Found(found);
    case Erase(key) =>
      var erased := m.Erase(key);
      answer := Flag(erased);
    case Contains(key) =>
      answer := Flag(m.Contains(key));
    case Keys =>
      answer := KeySet(m.Keys());
    case Clear =>
      m.Clear();
    case Save =>
      m.Save();
    case Commit =>
      m.Commit();
    case Discard =>
      m.Discard();
    case Crash(shadow) =>
      m.CommittedAlways(shadow);
      m.disk.shadow := shadow;
      m' := new MapLoader(m.disk, m.layout, m.indexCodec, m.committed);
    case Close =>
      m.Commit();
      m' := new MapLoader(m.disk, m.layout, m.indexCodec, m.committed);
  }

  // For every run, crashes and reopenings included, the loader answers and
  // ends as the three plain maps do.
  method Run<V(!new)>(
    disk: Disk, layout: Layout<string, V>, indexCodec: Codec<string, string>, ops: seq<Op<V>>,
    ghost contents: map<string, V>)
    returns (m: MapLoader<V>, answers: seq<Outcome<V>>)
    requires Usable(layout) && Lossless(indexCodec) && Holds(layout, indexCodec, disk.Files(), None, contents)
    modifies disk
    ensures m.Valid() && m.disk == disk
    ensures LayersOf(m) == After(Layers(contents, contents, contents), ops)
    ensures answers == Answers(Layers(contents, contents, contents), ops)
  {
    hide Together, Holds, WithOverlay, OverlayFits, IndexOf, BlocksOnly;
    ghost var s := Layers(contents, contents, contents);
    m := new MapLoader(disk, layout, indexCodec, contents);
    answers := [];
    for i := 0 to |ops|
      invariant m.Valid() && m.disk == disk && fresh(m)
      invariant LayersOf(m) == After(s, ops[..i]) && answers == Answers(s, ops[..i])
    {
      var answer;
      m, answer := Do(m, ops[i]);
      answers := answers + [answer];
      assert ops[..i + 1][..i] == ops[..i];
    }
    assert ops[..|ops|] == ops;
  }

  // The same from an empty directory, with keys spread by any hash: nothing is
  // assumed but a lossless codec and at least one block.
  method RunFromNothing<V(!new)>(
    disk: Disk, name: string, limit: nat, hash: string -> nat, codec: Codec<string, V>,
    indexCodec: Codec<string, string>, ops: seq<Op<V>>)
    returns (m: MapLoader<V>, answers: seq<Outcome<V>>)
    requires disk.Files() == map[] && limit > 0 && Lossless(codec) && Lossless(indexCodec)
    modifies disk
    ensures m.Valid() && m.disk == disk
    ensures LayersOf(m) == After(Layers(map[], map[], map[]), ops)
    ensures answers == Answers(Layers(map[], map[], map[]), ops)
  {
    hide Together, Holds, Lossless;
    var layout := HashedLayout(name, limit, hash, codec);
    HashedUsable(name, limit, hash, codec);
    EmptyDirectory(layout, indexCodec);
    m, answers := Run(disk, layout, indexCodec, ops, map[]);
  }
}
