/**
 * A document: the ordered multi-map of slots it wraps, updated in place, and
 * the conversion collaborators it hands to its entries.
 */
module Documents {
  import opened Wrappers
  import opened Values
  import opened KeyValues
  import opened MultiMap

  class Document {
    const platform: Platform
    var slots: seq<KeyValue>

    /**
     * `DocumentFactory.wrap`: a document over existing storage, using the given
     * collaborators; `DocumentFactory.create` is `Wrap` with no slots.
     */
    constructor Wrap(platform: Platform, slots: seq<KeyValue>)
      ensures this.platform == platform
      ensures this.slots == slots
    {
      this.platform := platform;
      this.slots := slots;
    }

    /**
     * Stores `value` under `key`: over the first slot with the key when there is
     * one, otherwise in a new slot (which this model appends at the end).
     */
    method Assign(key: string, value: Value)
      modifies this
      ensures IsPutOf(old(slots), slots, key, value)
    {
      match FirstIndex(slots, key)
      case Some(i) =>
        slots := slots[i := KeyValue(key, value)];
      case None =>
        ghost var before := slots;
        slots := slots + [KeyValue(key, value)];
        assert slots == InsertAt(before, |before|, KeyValue(key, value));
    }

    /** Deletes the first slot with `key`, if any. */
    method DeleteFirst(key: string)
      modifies this
      ensures slots == WithoutFirst(old(slots), key)
    {
      match FirstIndex(slots, key)
      case Some(i) =>
        slots := slots[..i] + slots[i + 1..];
      case None =>
    }
  }
}
