// The overlay of unsaved edits that both containers keep in memory, and the
// map one sees through it.
module Overlays {
  import opened FileSavers

  datatype Mark = Clean | Deleted | Modified

  datatype Edit<+V> = Edit(item: V, mark: Mark)

  ghost predicate Alive<K, V>(overlay: map<K, Edit<V>>, saved: map<K, V>, k: K) {
    if k in overlay then overlay[k].mark != Deleted else k in saved
  }

  // The saved map with the overlay laid over it.
  ghost function WithOverlay<K, V>(overlay: map<K, Edit<V>>, saved: map<K, V>): map<K, V> {
    map k | k in overlay.Keys + saved.Keys && Alive(overlay, saved, k) ::
      if k in overlay then overlay[k].item else saved[k]
  }

  // Clean entries repeat what is saved; only saved keys are marked deleted.
  ghost predicate OverlayFits<K, V>(overlay: map<K, Edit<V>>, saved: map<K, V>) {
    forall k | k in overlay ::
      && (overlay[k].mark == Clean ==> k in saved && overlay[k].item == saved[k])
      && (overlay[k].mark == Deleted ==> k in saved)
  }

  ghost function MarkedKeys<K, V>(overlay: map<K, Edit<V>>, mark: Mark): set<K> {
    set k | k in overlay && overlay[k].mark == mark
  }

  lemma NoOverlay<K, V>(saved: map<K, V>)
    ensures OverlayFits(map[], saved) && WithOverlay(map[], saved) == saved
  {
  }

  lemma AliveKeys<K, V>(overlay: map<K, Edit<V>>, saved: map<K, V>, key: K)
    ensures key in WithOverlay(overlay, saved) <==>
      if key in overlay then overlay[key].mark != Deleted else key in saved
  {
  }

  lemma CleanAdded<K, V>(overlay: map<K, Edit<V>>, saved: map<K, V>, key: K)
    requires OverlayFits(overlay, saved) && key in saved && key !in overlay
    ensures var o := overlay[key := Edit(saved[key], Clean)];
      OverlayFits(o, saved) && WithOverlay(o, saved) == WithOverlay(overlay, saved)
  {
  }

  lemma EditedOverlay<K, V>(overlay: map<K, Edit<V>>, saved: map<K, V>, key: K, v: V)
    requires OverlayFits(overlay, saved)
    ensures var o := overlay[key := Edit(v, Modified)];
      OverlayFits(o, saved) && WithOverlay(o, saved) == WithOverlay(overlay, saved)[key := v]
  {
  }

  // Erasing a key that is alive: it is marked deleted if it is saved, and
  // forgotten if it only ever lived in the overlay.
  lemma ErasedOverlay<K, V>(overlay: map<K, Edit<V>>, saved: map<K, V>, key: K, empty: V)
    requires OverlayFits(overlay, saved)
    requires key in overlay || key in saved
    ensures var o :=
      if key !in overlay then overlay[key := Edit(empty, Deleted)]
      else if key !in saved then overlay - {key}
      else overlay[key := overlay[key].(mark := Deleted)];
      OverlayFits(o, saved) && WithOverlay(o, saved) == WithOverlay(overlay, saved) - {key}
  {
  }

  // An overlay that marks the given keys deleted, and holds nothing else.
  ghost function Buried<K, V>(keys: set<K>, empty: V): map<K, Edit<V>> {
    map k | k in keys :: Edit(empty, Deleted)
  }

  lemma BuryOne<K, V>(keys: set<K>, todo: set<K>, k: K, empty: V)
    requires k in todo && todo <= keys
    ensures Buried(keys - (todo - {k}), empty) == Buried(keys - todo, empty)[k := Edit(empty, Deleted)]
  {
  }

  lemma BuryAll<K(!new), V>(saved: map<K, V>, empty: V)
    ensures forall keys: set<K> | keys == {} :: Buried(keys, empty) == map[]
    ensures OverlayFits(Buried(saved.Keys, empty), saved)
    ensures WithOverlay(Buried(saved.Keys, empty), saved) == map[]
  {
  }

  // The overlay's deleted and modified keys, in no particular order.
  method Classify<K(==), V>(overlay: map<K, Edit<V>>) returns (erased: seq<K>, modified: seq<K>)
    ensures NoDuplicates(erased) && SetOf(erased) == MarkedKeys(overlay, Deleted)
    ensures NoDuplicates(modified) && SetOf(modified) == MarkedKeys(overlay, Modified)
  {
    erased, modified := [], [];
    var todo := overlay.Keys;
    while todo != {}
      invariant todo <= overlay.Keys
      invariant NoDuplicates(erased) && SetOf(erased) == MarkedKeys(overlay, Deleted) - todo
      invariant NoDuplicates(modified) && SetOf(modified) == MarkedKeys(overlay, Modified) - todo
    {
      var k :| k in todo;
      assert k !in SetOf(erased) && k !in SetOf(modified);
      if overlay[k].mark == Modified {
        modified := modified + [k];
        assert SetOf(modified) == SetOf(modified[..|modified| - 1]) + {k};
      } else if overlay[k].mark == Deleted {
        erased := erased + [k];
        assert SetOf(erased) == SetOf(erased[..|erased| - 1]) + {k};
      }
      todo := todo - {k};
    }
  }

  // The two rounds of save together turn the saved map into the map that is
  // seen through the overlay.
  lemma SavedIsWorking<K, V>(
    overlay: map<K, Edit<V>>, saved: map<K, V>, erased: seq<K>, modified: seq<K>, items: map<K, V>)
    requires OverlayFits(overlay, saved)
    requires SetOf(erased) == MarkedKeys(overlay, Deleted) && SetOf(modified) == MarkedKeys(overlay, Modified)
    requires items == map k | k in overlay :: overlay[k].item
    ensures forall k | k in erased :: k in saved
    ensures forall k | k in modified :: k in items
    ensures var afterErase := if erased == [] then saved else Edited(saved, SetOf(erased), true, items);
      (if modified == [] then afterErase else Edited(afterErase, SetOf(modified), false, items)) ==
        WithOverlay(overlay, saved)
  {
    forall k | k in erased ensures k in saved { assert k in SetOf(erased); }
    forall k | k in modified ensures k in items { assert k in SetOf(modified); }
    var a := Edited(saved, SetOf(erased), true, items);
    var b := Edited(a, SetOf(modified), false, items);
    assert erased == [] ==> a == saved;
    assert modified == [] ==> b == a;
    assert forall k :: k in b <==> k in WithOverlay(overlay, saved);
  }
}
