/** The shared object store seen by the alert control plane: conditional PUTs on
    keyed, versioned objects (crates/objstore/src/conditional.rs and the calls in
    crates/alert/src/store.rs).

    A version tag is whatever the backend hands out, an ETag or a version id.
    The one thing relied on is that, per key, a tag never names two different
    records; both a write counter and a content hash have that property.
    Canonical JSON is injective, so bytes and records are identified. */
module ObjectStore {
  type Tag = nat

  datatype Object<R> = Object(record: R, tag: Tag)

  /** `named` remembers every record a tag has ever named. */
  datatype Store<K, R> = Store(objects: map<K, Object<R>>, named: map<(K, Tag), R>)

  /** What a conditional PUT reports to its caller.  `Ambiguous` is a 412 or 409,
      also returned when a retried request had already committed; `Broken` is any
      other failure, after which the write may or may not have happened. */
  datatype Report = Acknowledged | Ambiguous | Broken

  predicate Has<K, R(==)>(s: Store<K, R>, k: K, r: R) {
    k in s.objects && s.objects[k].record == r
  }

  /** The current object of every key is the one its tag names. */
  predicate TagsNameRecords<K, R(==)>(s: Store<K, R>) {
    forall k :: k in s.objects ==> (k, s.objects[k].tag) in s.named && s.named[(k, s.objects[k].tag)] == s.objects[k].record
  }

  predicate TagAllowed<K, R(==)>(s: Store<K, R>, k: K, r: R, tag: Tag) {
    (k, tag) in s.named ==> s.named[(k, tag)] == r
  }

  /** Store `r` at `k` under `tag`. */
  function Write<K, R(==)>(s: Store<K, R>, k: K, r: R, tag: Tag): (t: Store<K, R>)
    requires TagAllowed(s, k, r, tag)
    ensures TagsNameRecords(s) ==> TagsNameRecords(t)
  {
    Store(s.objects[k := Object(r, tag)], s.named[(k, tag) := r])
  }

  /** Create-if-absent may take effect. */
  predicate MayCreate<K, R(==)>(s: Store<K, R>, k: K, r: R, tag: Tag) {
    k !in s.objects && TagAllowed(s, k, r, tag)
  }

  /** Replace-if-current may take effect. */
  predicate MayReplace<K, R(==)>(s: Store<K, R>, k: K, r: R, expected: Tag, tag: Tag) {
    k in s.objects && s.objects[k].tag == expected && TagAllowed(s, k, r, tag)
  }
}
