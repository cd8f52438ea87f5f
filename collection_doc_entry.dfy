/**
 * `CollectionDocEntry`: a unit entry whose value is a list of documents. It is
 * a collection entry (its list type's elements are documents) with a smaller
 * set of accessors: the no-argument default accessors use the return-default
 * null policy, `put` also takes an array, and `remove` is strict.
 */
module CollectionDocEntries {
  import opened Wrappers
  import opened Values
  import opened MultiMap
  import opened BaseEntries
  import CE = CollectionEntries

  /** `isAssigned`: true exactly when at least one slot of the document holds the key. */
  function IsAssigned(e: CE.CollectionEntry): (r: bool)
    reads e.base.document
    ensures r <==> HasKey(CE.Slots(e), e.base.key)
    ensures r <==> FirstValue(CE.Slots(e), e.base.key).Some?
  {
    CE.IsAssigned(e)
  }

  /** `getVal`: the list under the first slot with the key; an absent key is an inexistent entry. */
  function GetVal(e: CE.CollectionEntry): (r: Result<CE.ListVal, Error>)
    reads e.base.document
    ensures !HasKey(CE.Slots(e), e.base.key) ==> r == Failure(InexistentEntry(e.base.key))
    ensures forall elems :: CE.Lookup(e) == Success(CE.Present(elems)) ==> r == Success(Some(elems))
    ensures r == CE.GetVal(e)
  {
    CE.GetVal(e)
  }

  /** `getNonEmptyVal`: an absent key is an inexistent entry; a null or empty list is an unexpected value. */
  function GetNonEmptyVal(e: CE.CollectionEntry): (r: Result<CE.ListVal, Error>)
    reads e.base.document
    ensures r.Success? ==> r.value.Some? && r.value.value != []
    ensures !HasKey(CE.Slots(e), e.base.key) ==> r == Failure(InexistentEntry(e.base.key))
    ensures CE.Lookup(e) == Success(CE.PresentNull) ==> r == Failure(UnexpectedEntryValue(e.base.key, NullFound))
    ensures CE.Lookup(e) == Success(CE.Present([])) ==> r == Failure(UnexpectedEntryValue(e.base.key, EmptyFound))
    ensures forall elems :: elems != [] && CE.Lookup(e) == Success(CE.Present(elems)) ==> r == Success(Some(elems))
    ensures CE.Lookup(e).Failure? ==> r == Failure(CE.Lookup(e).error)
  {
    CE.GetNonEmptyVal(e)
  }

  /** `getValOrEmpty`: an empty list when the key is absent (or the value null), else the list. */
  function GetValOrEmpty(e: CE.CollectionEntry): (r: Result<CE.ListVal, Error>)
    reads e.base.document
    ensures !HasKey(CE.Slots(e), e.base.key) ==> r == Success(Some([]))
    ensures CE.Lookup(e) == Success(CE.PresentNull) ==> r == Success(Some([]))
    ensures forall elems :: CE.Lookup(e) == Success(CE.Present(elems)) ==> r == Success(Some(elems))
  {
    CE.GetValOrEmpty(e)
  }

  /** `getValOrDefault(defaultValue)`: the caller's default when the key is absent (or the value null), else the list. */
  function GetValOrDefault(e: CE.CollectionEntry, defaultValue: CE.ListVal): (r: Result<CE.ListVal, Error>)
    reads e.base.document
    ensures !HasKey(CE.Slots(e), e.base.key) ==> r == Success(defaultValue)
    ensures CE.Lookup(e) == Success(CE.PresentNull) ==> r == Success(defaultValue)
    ensures forall elems :: CE.Lookup(e) == Success(CE.Present(elems)) ==> r == Success(Some(elems))
  {
    CE.GetValOrDefault(e, defaultValue)
  }

  /**
   * `put(Iterable)`: creates the entry if absent, otherwise replaces the value of
   * its first slot. The argument is statically an iterable, or null.
   */
  method Put(e: CE.CollectionEntry, value: Value) returns (r: Outcome<Error>)
    requires value.Null? || (value.Items? && value.cls.descriptor.shape == CollectionShape)
    modifies e.base.document
    ensures var stored := ConvertAndNormaliseValForPut(e.base, value, e.mutatorType);
      && (stored.Failure? ==> r == Fail(stored.error) && CE.Slots(e) == old(CE.Slots(e)))
      && (stored.Success? ==> r == Pass && IsPutOf(old(CE.Slots(e)), CE.Slots(e), e.base.key, stored.value))
    ensures r.Pass? ==> IsAssigned(e)
    ensures r.Pass? ==> CE.Lookup(e) == CE.ReadSlot(e.base.key,
      ConvertAndNormaliseValForGet(e.base, ConvertAndNormaliseValForPut(e.base, value, e.mutatorType).value, e.accessorType))
  {
    r := CE.Put(e, value);
  }

  /**
   * `put(E[])`: the array variant of `put`. The argument is statically an
   * array, or null; it goes through the same put pipeline.
   */
  method PutArray(e: CE.CollectionEntry, value: Value) returns (r: Outcome<Error>)
    requires value.Null? || (value.Items? && value.cls.descriptor.shape == ArrayShape)
    modifies e.base.document
    ensures var stored := ConvertAndNormaliseValForPut(e.base, value, e.mutatorType);
      && (stored.Failure? ==> r == Fail(stored.error) && CE.Slots(e) == old(CE.Slots(e)))
      && (stored.Success? ==> r == Pass && IsPutOf(old(CE.Slots(e)), CE.Slots(e), e.base.key, stored.value))
    ensures r.Pass? ==> IsAssigned(e)
    ensures r.Pass? ==> CE.Lookup(e) == CE.ReadSlot(e.base.key,
      ConvertAndNormaliseValForGet(e.base, ConvertAndNormaliseValForPut(e.base, value, e.mutatorType).value, e.accessorType))
  {
    r := CE.Put(e, value);
  }

  /** `putConverted`: converts to the entry's list type first, then puts. */
  method PutConverted(e: CE.CollectionEntry, value: Value) returns (r: Outcome<Error>)
    modifies e.base.document
    ensures var converted := GetConvertedValueOf(e.base, value, e.accessorType);
      && (converted.Failure? ==> r == Fail(converted.error) && CE.Slots(e) == old(CE.Slots(e)))
      && (converted.Success? ==>
            var stored := ConvertAndNormaliseValForPut(e.base, converted.value, e.mutatorType);
            && (stored.Failure? ==> r == Fail(stored.error) && CE.Slots(e) == old(CE.Slots(e)))
            && (stored.Success? ==> r == Pass && IsPutOf(old(CE.Slots(e)), CE.Slots(e), e.base.key, stored.value)))
    ensures r.Pass? ==> IsAssigned(e)
    ensures r.Pass? ==> CE.Lookup(e) == CE.ReadSlot(e.base.key,
      ConvertAndNormaliseValForGet(e.base,
        ConvertAndNormaliseValForPut(e.base, GetConvertedValueOf(e.base, value, e.accessorType).value, e.mutatorType).value,
        e.accessorType))
  {
    r := CE.PutConverted(e, value);
  }

  /** `remove`: deletes only the first slot with the key, matched by key alone; an absent key is an inexistent entry. */
  method Remove(e: CE.CollectionEntry) returns (r: Outcome<Error>)
    modifies e.base.document
    ensures old(IsAssigned(e)) ==> r == Pass && CE.Slots(e) == WithoutFirst(old(CE.Slots(e)), e.base.key)
    ensures !old(IsAssigned(e)) ==> r == Fail(InexistentEntry(e.base.key)) && CE.Slots(e) == old(CE.Slots(e))
  {
    r := CE.Remove(e);
  }
}
