/**
 * The entity contract every cacheable type implements (ICacheModel): an
 * identifier, a serialized record, population from a record, and the default
 * merge-patch `applyUpdate`.
 *
 * An entity is modelled by the two things the cache layer ever observes of it:
 * the identifier it reports and the record it serializes to. What
 * `getIdentifier()` reports after `deserialize(r)` is up to the entity type, so
 * each type contributes a total function `identify` from records to
 * identifiers (its factory plus `deserialize`, then `getIdentifier`).
 */
module CacheModel {
  import opened Json

  /** What `getIdentifier()` returns for an entity populated from a record. */
  type IdOf = Record -> string

  /** An entity: `getIdentifier()` and `serialize()`. */
  datatype Model = Model(id: string, data: Record)

  /** `factory.get()` followed by `deserialize(record)`. */
  function Deserialize(identify: IdOf, record: Record): Model {
    Model(identify(record), record)
  }

  /** The shallow merge-patch: every patch member overwrites the current one. */
  function Merged(current: Record, patch: Record): Record {
    current + patch
  }

  /**
   * `applyUpdate(updates)`: copy `serialize()`, add each member of the patch to
   * the copy one at a time, then `deserialize` the copy. The entity is returned
   * as a new value instead of being changed in place.
   */
  method ApplyUpdate(identify: IdOf, model: Model, updates: Record) returns (updated: Model)
    ensures updated.data.Keys == model.data.Keys + updates.Keys
    ensures forall k :: k in updates ==> updated.data[k] == updates[k]
    ensures forall k :: k in model.data && k !in updates ==> updated.data[k] == model.data[k]
    ensures updated == Deserialize(identify, Merged(model.data, updates))
  {
    var currentData := model.data;
    var pending := updates.Keys;
    while pending != {}
      invariant pending <= updates.Keys
      invariant currentData.Keys == model.data.Keys + (updates.Keys - pending)
      invariant forall k :: k in currentData ==>
        currentData[k] == if k in updates && k !in pending then updates[k] else model.data[k]
      decreases pending
    {
      var key :| key in pending;
      currentData := currentData[key := updates[key]];
      pending := pending - {key};
    }
    assert currentData == Merged(model.data, updates);
    updated := Deserialize(identify, currentData);
  }

  /** Merging the same patch a second time changes nothing. */
  lemma MergedIdempotent(current: Record, patch: Record)
    ensures Merged(Merged(current, patch), patch) == Merged(current, patch)
  {
  }

  /** An empty patch hands `deserialize` exactly the record `serialize()` produced. */
  lemma MergedEmptyPatch(current: Record)
    ensures Merged(current, map[]) == current
  {
  }
}
