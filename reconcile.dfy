/**
 * The keyed data join of `update` (assets/js/taxonomy.js:108-112, 189, 224,
 * 236-255): elements are matched to data by key, and every key falls in
 * exactly one of enter (new only), update (both) and exit (old only).
 */
module Reconcile {

  datatype Diff<K> = Diff(enter: set<K>, update: set<K>, exit: set<K>)

  /** Classification of the keys of the rendered set `before` against the new data keys `after`. */
  function Classify<K>(before: set<K>, after: set<K>): Diff<K>
  {
    Diff(after - before, after * before, before - after)
  }

  /** The three sets split the new keys and the old keys between them, without overlap. */
  lemma ClassifyPartition<K>(before: set<K>, after: set<K>)
    ensures var d := Classify(before, after);
      && d.enter + d.update == after
      && d.update + d.exit == before
      && d.enter !! d.update && d.enter !! d.exit && d.update !! d.exit
  {
  }

  /** Removing the exiting keys and adding the entering ones turns the old rendered set into the new one. */
  lemma ApplyDiff<K>(before: set<K>, after: set<K>)
    ensures var d := Classify(before, after); (before - d.exit) + d.enter == after
    ensures var d := Classify(before, after); d.enter + d.update + d.exit == before + after
  {
  }

  /** The classification is the only partition of `before + after` with the properties above. */
  lemma ClassifyUnique<K>(before: set<K>, after: set<K>, d: Diff<K>)
    requires d.enter + d.update == after && d.update + d.exit == before
    requires d.enter !! d.update && d.enter !! d.exit && d.update !! d.exit
    ensures d == Classify(before, after)
  {
    var c := Classify(before, after);
    assert d.enter == c.enter by {
      forall k | k in d.enter ensures k !in before {
      }
    }
    assert d.update == c.update;
    assert d.exit == c.exit;
  }
}
