// Whole runs of a vector_loader, against three plain sequences.
module VectorRuns {
  import opened Wrappers
  import opened BlockFormat
  import opened Disks
  import opened FileSavers
  import opened BlockLayouts
  import opened Overlays
  import opened VectorLoaders

  // Crash ends the process at any moment outside of a commit, in the middle of
  // a save for instance, and leaves anything at all in the shadow files. Close
  // ends it with the commit of the destructor. Both are followed by opening
  // the container again.
  datatype Op<!V> =
    | PushBack(value: V)
    | PopBack
    | Update(index: nat, f: V -> V)
    | At(index: nat)
    | Size
    | Clear
    | Save
    | Commit
    | Discard
    | Crash(shadow: Pairs)
    | Close

  datatype Outcome<+V> = Nothing | Popped(ok: bool) | Found(found: Result<V>) | Length(length: nat)

  datatype Layers<+V> = Layers(working: seq<V>, saved: seq<V>, committed: seq<V>)

  function Lookup<V>(s: seq<V>, index: nat): Result<V> {
    if index < |s| then Ok(s[index]) else Thrown
  }

  // What the operation means for the three sequences.
  function Step<V>(s: Layers<V>, op: Op<V>): Layers<V> {
    match op
    case PushBack(value) => s.(working := s.working + [value])
    case PopBack => if s.working == [] then s else s.(working := s.working[..|s.working| - 1])
    case Update(index, f) =>
      if index < |s.working| then s.(working := s.working[index := f(s.working[index])]) else s
    case At(_) | Size => s
    case Clear => s.(working := [])
    case Save => s.(saved := s.working)
    case Commit => s.(committed := s.saved)
    case Discard | Crash(_) => Layers(s.committed, s.committed, s.committed)
    case Close => Layers(s.saved, s.saved, s.saved)
  }

  function Answer<V>(s: Layers<V>, op: Op<V>): Outcome<V> {
    match op
    case PopBack => Popped(|s.working| > 0)
    case Update(index, _) => Found(Lookup(s.working, index))
    case At(index) => Found(Lookup(s.working, index))
    case Size => Length(|s.working|)
    case PushBack(_) | Clear | Save | Commit | Discard | Crash(_) | Close => Nothing
  }

  function After<V>(s: Layers<V>, ops: seq<Op<V>>): Layers<V> {
    if ops == [] then s else Step(After(s, ops[..|ops| - 1]), ops[|ops| - 1])
  }

  function Answers<V>(s: Layers<V>, ops: seq<Op<V>>): seq<Outcome<V>> {
    if ops == [] then []
    else Answers(s, ops[..|ops| - 1]) + [Answer(After(s, ops[..|ops| - 1]), ops[|ops| - 1])]
  }

  ghost function LayersOf<V(!new)>(v: VectorLoader<V>): Layers<V>
    reads v, v.disk
    requires v.Valid()
  {
    Layers(v.Working(), v.saved, v.committed)
  }

  method Do<V(!new)>(v: VectorLoader<V>, op: Op<V>) returns (v': VectorLoader<V>, answer: Outcome<V>)
    requires v.Valid()
    modifies v, v.disk
    ensures v'.Valid() && v'.disk == v.disk && (v' == v || fresh(v'))
    ensures LayersOf(v') == Step(old(LayersOf(v)), op) && answer == Answer(old(LayersOf(v)), op)
  {
    hide Together, Holds, WithOverlay, OverlayFits, BlocksOnly, SeqSeen, Spans;
    v', answer := v, Nothing;
    match op
    case PushBack(value) =>
      v.PushBack(value);
    case PopBack =>
      var ok := v.PopBack();
      answer := Popped(ok);
    case Update(index, f) =>
      var found := v.Update(index, f);
      answer := Found(found);
    case At(index) =>
      var found := v.At(index);
      answer := Found(found);
    case Size =>
      answer := Length(v.Size());
    case Clear =>
      v.Clear();
    case Save =>
      v.Save();
    case Commit =>
      v.Commit();
    case Discard =>
      v.Discard();
    case Crash(shadow) =>
      v.CommittedAlways(shadow);
      v.disk.shadow := shadow;
      v' := new VectorLoader(v.disk, v.layout, v.sizeCodec, v.committed);
    case Close =>
      v.Commit();
      v' := new VectorLoader(v.disk, v.layout, v.sizeCodec, v.committed);
  }

  // For every run, crashes and reopenings included, the loader answers and
  // ends as the three plain sequences do.
  method Run<V(!new)>(
    disk: Disk, layout: Layout<nat, V>, sizeCodec: Codec<nat, nat>, ops: seq<Op<V>>, ghost contents: seq<V>)
    returns (v: VectorLoader<V>, answers: seq<Outcome<V>>)
    requires Usable(layout) && Lossless(sizeCodec) && Holds(layout, sizeCodec, disk.Files(), None, contents)
    modifies disk
    ensures v.Valid() && v.disk == disk
    ensures LayersOf(v) == After(Layers(contents, contents, contents), ops)
    ensures answers == Answers(Layers(contents, contents, contents), ops)
  {
    hide Together, Holds, WithOverlay, OverlayFits, BlocksOnly, SeqSeen, Spans;
    ghost var s := Layers(contents, contents, contents);
    v := new VectorLoader(disk, layout, sizeCodec, contents);
    answers := [];
    for i := 0 to |ops|
      invariant v.Valid() && v.disk == disk && fresh(v)
      invariant LayersOf(v) == After(s, ops[..i]) && answers == Answers(s, ops[..i])
    {
      var answer;
      v, answer := Do(v, ops[i]);
      answers := answers + [answer];
      assert ops[..i + 1][..i] == ops[..i];
    }
    assert ops[..|ops|] == ops;
  }

  // The same from an empty directory, with indices spread by group.
  method RunFromNothing<V(!new)>(
    disk: Disk, name: string, limit: nat, group: nat, codec: Codec<nat, V>, sizeCodec: Codec<nat, nat>, ops: seq<Op<V>>)
    returns (v: VectorLoader<V>, answers: seq<Outcome<V>>)
    requires disk.Files() == map[] && limit > 0 && group > 0 && Lossless(codec) && Lossless(sizeCodec)
    modifies disk
    ensures v.Valid() && v.disk == disk
    ensures LayersOf(v) == After(Layers([], [], []), ops)
    ensures answers == Answers(Layers([], [], []), ops)
  {
    hide Together, Holds, Lossless;
    var layout := GroupedLayout(name, limit, group, codec);
    GroupedUsable(name, limit, group, codec);
    EmptyDirectory(layout, sizeCodec);
    v, answers := Run(disk, layout, sizeCodec, ops, []);
  }
}
