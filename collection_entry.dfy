/**
 * `CollectionEntry`: a unit entry whose value is a list. Its accessors read
 * the first slot with the key; its mutators replace that slot, insert one, or
 * delete it.
 */
module CollectionEntries {
  import opened Wrappers
  import opened Values
  import opened KeyValues
  import opened MultiMap
  import opened Documents
  import opened BaseEntries

  /** A collection entry: its base, the list type it reads as and the type it stores as, if declared. */
  datatype CollectionEntry = CollectionEntry(base: BaseEntry, accessorType: TypeDesc, mutatorType: Option<TypeDesc>)

  /** How the entry's first slot reads once converted and normalised. */
  datatype Slot = Absent | PresentNull | Present(elems: seq<Value>)

  /** A list an accessor returns; `None` is a null list. */
  type ListVal = Option<seq<Value>>

  function Slots(e: CollectionEntry): seq<KeyValue>
    reads e.base.document
  {
    e.base.document.slots
  }

  /** `isAssigned`: some slot of the document holds the key. */
  function IsAssigned(e: CollectionEntry): (r: bool)
    reads e.base.document
    ensures r <==> exists i :: 0 <= i < |Slots(e)| && Slots(e)[i].key == e.base.key
  {
    FirstIndex(Slots(e), e.base.key).Some?
  }

  /**
   * Classifies a value read from a present slot by the get pipeline: only a
   * null or a list passes the cast to `List`; an array or any other object does not.
   */
  function ReadSlot(key: string, converted: Result<Value, Error>): (r: Result<Slot, Error>)
    ensures converted.Failure? ==> r == Failure(converted.error)
    ensures converted == Success(Null) <==> r == Success(PresentNull)
    ensures forall elems :: r == Success(Present(elems)) <==>
      (converted.Success? && converted.value.Items? && converted.value.cls.descriptor.shape != ArrayShape
       && converted.value.elems == elems)
    ensures r == Failure(IncompatibleValue(key)) <==>
      (converted.Success? && (converted.value.Atom? || (converted.value.Items? && converted.value.cls.descriptor.shape == ArrayShape)))
      || converted == Failure(IncompatibleValue(key))
  {
    match converted
    case Failure(err) => Failure(err)
    case Success(Null) => Success(PresentNull)
    case Success(Items(cls, elems)) =>
      if cls.descriptor.shape == ArrayShape then Failure(IncompatibleValue(key)) else Success(Present(elems))
    case Success(Atom(_, _)) => Failure(IncompatibleValue(key))
  }

  /** The first slot with the key, read through the get pipeline; no other slot is looked at. */
  function Lookup(e: CollectionEntry): (r: Result<Slot, Error>)
    reads e.base.document
    ensures r == Success(Absent) <==> !IsAssigned(e)
    ensures forall i :: IsFirst(Slots(e), e.base.key, i) ==>
      r == ReadSlot(e.base.key, ConvertAndNormaliseValForGet(e.base, Slots(e)[i].value, e.accessorType))
  {
    match FirstIndex(Slots(e), e.base.key)
    case None => Success(Absent)
    case Some(i) => ReadSlot(e.base.key, ConvertAndNormaliseValForGet(e.base, Slots(e)[i].value, e.accessorType))
  }

  // ---------------------------------------------------------------------------
  // Accessors

  /** `getVal`: the value of an existing entry, possibly null; an absent entry is an error. */
  function GetVal(e: CollectionEntry): (r: Result<ListVal, Error>)
    reads e.base.document
    ensures !IsAssigned(e) ==> r == Failure(InexistentEntry(e.base.key))
    ensures Lookup(e).Failure? ==> r == Failure(Lookup(e).error)
    ensures Lookup(e) == Success(PresentNull) ==> r == Success(None)
    ensures forall elems :: Lookup(e) == Success(Present(elems)) ==> r == Success(Some(elems))
  {
    match Lookup(e)
    case Failure(err) => Failure(err)
    case Success(Absent) => Failure(InexistentEntry(e.base.key))
    case Success(PresentNull) => Success(None)
    case Success(Present(elems)) => Success(Some(elems))
  }

  /** `getNonNullVal`: as `getVal`, and a null value is an error, so the result is never null. */
  function GetNonNullVal(e: CollectionEntry): (r: Result<ListVal, Error>)
    reads e.base.document
    ensures r.Success? ==> r.value.Some?
    ensures !IsAssigned(e) ==> r == Failure(InexistentEntry(e.base.key))
    ensures Lookup(e) == Success(PresentNull) ==> r == Failure(UnexpectedEntryValue(e.base.key, NullFound))
    ensures Lookup(e).Failure? ==> r == Failure(Lookup(e).error)
    ensures forall elems :: Lookup(e) == Success(Present(elems)) ==> r == Success(Some(elems))
  {
    match Lookup(e)
    case Failure(err) => Failure(err)
    case Success(Absent) => Failure(InexistentEntry(e.base.key))
    case Success(PresentNull) => Failure(UnexpectedEntryValue(e.base.key, NullFound))
    case Success(Present(elems)) => Success(Some(elems))
  }

  /** `getNonEmptyVal`: as `getNonNullVal`, and an empty list is an error too. */
  function GetNonEmptyVal(e: CollectionEntry): (r: Result<ListVal, Error>)
    reads e.base.document
    ensures r.Success? ==> r.value.Some? && r.value.value != []
    ensures !IsAssigned(e) ==> r == Failure(InexistentEntry(e.base.key))
    ensures Lookup(e) == Success(PresentNull) ==> r == Failure(UnexpectedEntryValue(e.base.key, NullFound))
    ensures Lookup(e) == Success(Present([])) ==> r == Failure(UnexpectedEntryValue(e.base.key, EmptyFound))
    ensures Lookup(e).Failure? ==> r == Failure(Lookup(e).error)
    ensures forall elems :: elems != [] && Lookup(e) == Success(Present(elems)) ==> r == Success(Some(elems))
  {
    match Lookup(e)
    case Failure(err) => Failure(err)
    case Success(Absent) => Failure(InexistentEntry(e.base.key))
    case Success(PresentNull) => Failure(UnexpectedEntryValue(e.base.key, NullFound))
    case Success(Present(elems)) =>
      if elems == [] then Failure(UnexpectedEntryValue(e.base.key, EmptyFound)) else Success(Some(elems))
  }

  /**
   * `getValOrDefault(defaultValue, nullValHandling)`: an absent entry gives the
   * default under every policy; a null value gives null, the default, or an
   * error, as the policy says.
   */
  function GetValOrDefaultWith(e: CollectionEntry, defaultValue: ListVal, nullValHandling: NullValHandling)
    : (r: Result<ListVal, Error>)
    reads e.base.document
    ensures !IsAssigned(e) ==> r == Success(defaultValue)
    ensures Lookup(e) == Success(PresentNull) ==>
      r == match nullValHandling
           case ReturnNull => Success(None)
           case ReturnDefault => Success(defaultValue)
           case FailOnNull => Failure(UnexpectedEntryValue(e.base.key, NullFound))
    ensures Lookup(e).Failure? ==> r == Failure(Lookup(e).error)
    ensures forall elems :: Lookup(e) == Success(Present(elems)) ==> r == Success(Some(elems))
  {
    match Lookup(e)
    case Failure(err) => Failure(err)
    case Success(Absent) => Success(defaultValue)
    case Success(PresentNull) =>
      (match nullValHandling
       case ReturnNull => Success(None)
       case ReturnDefault => Success(defaultValue)
       case FailOnNull => Failure(UnexpectedEntryValue(e.base.key, NullFound)))
    case Success(Present(elems)) => Success(Some(elems))
  }

  /** `getValOrDefault(defaultValue)`: the default for an absent entry or a null value. */
  function GetValOrDefault(e: CollectionEntry, defaultValue: ListVal): (r: Result<ListVal, Error>)
    reads e.base.document
    ensures r == GetValOrDefaultWith(e, defaultValue, ReturnDefault)
    ensures !IsAssigned(e) || Lookup(e) == Success(PresentNull) ==> r == Success(defaultValue)
  {
    GetValOrDefaultWith(e, defaultValue, ReturnDefault)
  }

  /** `getValOrEmpty(nullValHandling)`: an empty list for an absent entry; a null value as the policy says. */
  function GetValOrEmptyWith(e: CollectionEntry, nullValHandling: NullValHandling): (r: Result<ListVal, Error>)
    reads e.base.document
    ensures !IsAssigned(e) ==> r == Success(Some([]))
    ensures Lookup(e) == Success(PresentNull) && nullValHandling == FailOnNull ==>
      r == Failure(UnexpectedEntryValue(e.base.key, NullFound))
  {
    match Lookup(e)
    case Failure(err) => Failure(err)
    case Success(Absent) => Success(Some([]))
    case Success(PresentNull) =>
      (match nullValHandling
       case ReturnNull => Success(None)
       case ReturnDefault => Success(Some([]))
       case FailOnNull => Failure(UnexpectedEntryValue(e.base.key, NullFound)))
    case Success(Present(elems)) => Success(Some(elems))
  }

  /** `getValOrEmpty()`: an empty list for an absent entry or a null value. */
  function GetValOrEmpty(e: CollectionEntry): (r: Result<ListVal, Error>)
    reads e.base.document
    ensures r == GetValOrEmptyWith(e, ReturnDefault)
    ensures !IsAssigned(e) || Lookup(e) == Success(PresentNull) ==> r == Success(Some([]))
  {
    GetValOrEmptyWith(e, ReturnDefault)
  }

  // ---------------------------------------------------------------------------
  // How the accessors relate

  /** `getValOrEmpty(h)` is `getValOrDefault(emptyList, h)`. */
  lemma OrEmptyIsOrDefaultOfEmpty(e: CollectionEntry, nullValHandling: NullValHandling)
    ensures GetValOrEmptyWith(e, nullValHandling) == GetValOrDefaultWith(e, Some([]), nullValHandling)
  {
  }

  /** The stricter accessors return what `getVal` returns whenever they succeed, and succeed whenever its value qualifies. */
  lemma StrictAccessorsRefineGetVal(e: CollectionEntry)
    ensures GetNonNullVal(e).Success? ==> GetVal(e) == GetNonNullVal(e)
    ensures GetNonEmptyVal(e).Success? ==> GetNonNullVal(e) == GetNonEmptyVal(e)
    ensures forall elems :: GetVal(e) == Success(Some(elems)) ==> GetNonNullVal(e) == GetVal(e)
    ensures forall elems :: elems != [] && GetVal(e) == Success(Some(elems)) ==> GetNonEmptyVal(e) == GetVal(e)
  {
  }

  /** On a present, non-null value every default accessor returns what `getVal` returns. */
  lemma DefaultAccessorsAgreeOnValue(e: CollectionEntry, elems: seq<Value>, defaultValue: ListVal, nullValHandling: NullValHandling)
    requires GetVal(e) == Success(Some(elems))
    ensures GetValOrDefaultWith(e, defaultValue, nullValHandling) == Success(Some(elems))
    ensures GetValOrEmptyWith(e, nullValHandling) == Success(Some(elems))
  {
  }

  /** The strict accessors report an inexistent entry exactly when no slot holds the key. */
  lemma InexistentEntryMeansAbsent(e: CollectionEntry)
    ensures GetVal(e).Failure? && GetVal(e).error.InexistentEntry? <==> !IsAssigned(e)
    ensures GetNonNullVal(e).Failure? && GetNonNullVal(e).error.InexistentEntry? <==> !IsAssigned(e)
    ensures GetNonEmptyVal(e).Failure? && GetNonEmptyVal(e).error.InexistentEntry? <==> !IsAssigned(e)
  {
    if IsAssigned(e) {
      var i := FirstIndex(Slots(e), e.base.key).value;
      var got := ConvertAndNormaliseValForGet(e.base, Slots(e)[i].value, e.accessorType);
      assert got.Failure? ==> got.error.InvalidArgument?;
    }
  }

  // ---------------------------------------------------------------------------
  // Mutators

  /**
   * `put`: the value goes through the put pipeline; the result replaces the
   * first slot's value, or is stored in a new slot when the key is absent. A
   * pipeline failure leaves the document unchanged. Afterwards the entry is
   * assigned and reads as the stored value.
   */
  method Put(e: CollectionEntry, value: Value) returns (r: Outcome<Error>)
    modifies e.base.document
    ensures var stored := ConvertAndNormaliseValForPut(e.base, value, e.mutatorType);
      && (stored.Failure? ==> r == Fail(stored.error) && Slots(e) == old(Slots(e)))
      && (stored.Success? ==> r == Pass && IsPutOf(old(Slots(e)), Slots(e), e.base.key, stored.value))
    ensures r.Pass? ==> IsAssigned(e)
    ensures r.Pass? ==> Lookup(e) == ReadSlot(e.base.key,
      ConvertAndNormaliseValForGet(e.base, ConvertAndNormaliseValForPut(e.base, value, e.mutatorType).value, e.accessorType))
  {
    match ConvertAndNormaliseValForPut(e.base, value, e.mutatorType)
    case Failure(err) =>
      r := Fail(err);
    case Success(stored) =>
      e.base.document.Assign(e.base.key, stored);
      PutTargetsFirstSlot(old(Slots(e)), Slots(e), e.base.key, stored);
      r := Pass;
  }

  /**
   * `putConverted`: the value is first converted to the entry's list type
   * (a failure leaves the document unchanged) and the result is then put.
   */
  method PutConverted(e: CollectionEntry, value: Value) returns (r: Outcome<Error>)
    modifies e.base.document
    ensures var converted := GetConvertedValueOf(e.base, value, e.accessorType);
      && (converted.Failure? ==> r == Fail(converted.error) && Slots(e) == old(Slots(e)))
      && (converted.Success? ==>
            var stored := ConvertAndNormaliseValForPut(e.base, converted.value, e.mutatorType);
            && (stored.Failure? ==> r == Fail(stored.error) && Slots(e) == old(Slots(e)))
            && (stored.Success? ==> r == Pass && IsPutOf(old(Slots(e)), Slots(e), e.base.key, stored.value)))
    ensures r.Pass? ==> IsAssigned(e)
    ensures r.Pass? ==> Lookup(e) == ReadSlot(e.base.key,
      ConvertAndNormaliseValForGet(e.base,
        ConvertAndNormaliseValForPut(e.base, GetConvertedValueOf(e.base, value, e.accessorType).value, e.mutatorType).value,
        e.accessorType))
  {
    match GetConvertedValueOf(e.base, value, e.accessorType)
    case Failure(err) =>
      r := Fail(err);
    case Success(converted) =>
      r := Put(e, converted);
  }

  /**
   * `remove(removeOption)`: deletes the first slot with the key, matched by key
   * only. On an absent key `Strict` fails and `Lenient` does nothing; either
   * way the document is unchanged.
   */
  method RemoveWith(e: CollectionEntry, removeOption: RemoveEntryOption) returns (r: Outcome<Error>)
    modifies e.base.document
    ensures old(IsAssigned(e)) ==> r == Pass && Slots(e) == WithoutFirst(old(Slots(e)), e.base.key)
    ensures !old(IsAssigned(e)) ==> Slots(e) == old(Slots(e))
    ensures !old(IsAssigned(e)) ==> r == if removeOption == Strict then Fail(InexistentEntry(e.base.key)) else Pass
  {
    if IsAssigned(e) {
      e.base.document.DeleteFirst(e.base.key);
      r := Pass;
    } else if removeOption == Strict {
      r := Fail(InexistentEntry(e.base.key));
    } else {
      r := Pass;
    }
  }

  /** `remove()`: strict removal. */
  method Remove(e: CollectionEntry) returns (r: Outcome<Error>)
    modifies e.base.document
    ensures old(IsAssigned(e)) ==> r == Pass && Slots(e) == WithoutFirst(old(Slots(e)), e.base.key)
    ensures !old(IsAssigned(e)) ==> r == Fail(InexistentEntry(e.base.key)) && Slots(e) == old(Slots(e))
  {
    r := RemoveWith(e, Strict);
  }
}
