/**
 JSON merge patches (RFC 7396, section 2) on string maps, as the controllers use them: the patch is the
 difference between the object as read and the object as changed in memory, and the server applies it
 to whatever version it has stored by then.
 */
module MergePatch {
  import opened Wrappers

  /** None deletes the key (JSON null), Some sets it; keys that are not in the patch are left alone. */
  type Patch<!K, V> = map<K, Option<V>>

  function Diff<K, V(==)>(base: map<K, V>, changed: map<K, V>): Patch<K, V> {
    (map k | k in base && k !in changed :: None) +
    (map k | k in changed && !(k in base && base[k] == changed[k]) :: Some(changed[k]))
  }

  function Apply<K, V>(stored: map<K, V>, patch: Patch<K, V>): map<K, V> {
    map k | k in stored.Keys + patch.Keys && (k in patch ==> patch[k].Some?) ::
      if k in patch then patch[k].value else stored[k]
  }

  predicate SameAt<K, V(==)>(a: map<K, V>, b: map<K, V>, k: K) {
    if k in a then k in b && a[k] == b[k] else k !in b
  }

  /** Applied to any later version: a key the writer changed gets the writer's value, every other key keeps the stored one. */
  lemma PatchEffect<K, V>(base: map<K, V>, changed: map<K, V>, stored: map<K, V>, k: K)
    ensures SameAt(Apply(stored, Diff(base, changed)), if SameAt(base, changed, k) then stored else changed, k)
  {
  }

  /**
   The writer's intended value arrives at key k exactly when the writer changed k or nobody else did:
   a key the writer leaves as it read it is not in the patch, so it is not restored.
   */
  lemma PatchArrives<K, V>(base: map<K, V>, changed: map<K, V>, stored: map<K, V>, k: K)
    ensures SameAt(Apply(stored, Diff(base, changed)), changed, k)
            <==> !SameAt(base, changed, k) || SameAt(stored, base, k)
  {
    PatchEffect(base, changed, stored, k);
  }

  /** Against the version it was computed from, the patch produces exactly the intended map. */
  lemma PatchRoundTrip<K, V>(base: map<K, V>, changed: map<K, V>)
    ensures Apply(base, Diff(base, changed)) == changed
  {
    forall k ensures SameAt(Apply(base, Diff(base, changed)), changed, k) {
      PatchArrives(base, changed, base, k);
    }
    var got := Apply(base, Diff(base, changed));
    assert forall k :: k in got <==> k in changed;
  }

  /** Two writers whose changed keys are disjoint can patch in either order. */
  lemma PatchesCommute<K, V>(base: map<K, V>, one: map<K, V>, base': map<K, V>, two: map<K, V>, stored: map<K, V>)
    requires Diff(base, one).Keys !! Diff(base', two).Keys
    ensures Apply(Apply(stored, Diff(base, one)), Diff(base', two)) == Apply(Apply(stored, Diff(base', two)), Diff(base, one))
  {
  }
}
